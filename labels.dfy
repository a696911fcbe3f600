/** The flag test and the code-to-label tables the decoder prints with.

    Each table is a C# `switch` over an enum: the codes it names get their
    label, every other int gets the table's default. The contracts say which
    codes are named — so that the default is printed exactly for the others —
    and the lemmas check particular entries. */
module Labels {
  import opened Bytes

  // ---------------------------------------------------------------------------
  // The all-bits flag test.

  /** IsFlagActive: every bit of the flag is set in the status byte. The enum
      values the decoder passes all fit in a byte. */
  predicate IsFlagActive(b: byte, flag: bv8): (active: bool)
    ensures active <==> (b as bv8) | flag == b as bv8
  {
    AllBitsSet(b as bv8, flag)
  }

  /** `(bits & flag) == flag`. */
  predicate AllBitsSet(bits: bv8, flag: bv8) {
    bits & flag == flag
  }

  /** EXTENDED_SOLN_STATUS. */
  const Glide: bv8 := 0x01
  const IonoCorrKlobuchar: bv8 := 0x02
  const IonoCorrSBAS: bv8 := 0x04
  const IonoCorrMultiFreq: bv8 := 0x06
  const IonoCorrPSRDIFF: bv8 := 0x08
  const IonoCorrNovatelIono: bv8 := 0x0A
  const AntennaWarning: bv8 := 0x20

  /** SIGNALS_USED_MASK. The Galileo and BeiDou bits share their values with GPS
      L1 and GLONASS L1/L2; the decoder tests them against a different byte. */
  const GpsL1Used: bv8 := 0x01
  const GpsL2Used: bv8 := 0x02
  const GpsL5Used: bv8 := 0x04
  const GloL1Used: bv8 := 0x10
  const GloL2Used: bv8 := 0x20
  const E1Used: bv8 := 0x01
  const BeidouB1Used: bv8 := 0x10
  const BeidouB2Used: bv8 := 0x20

  /** A flag made of two flags' bits is active exactly when both are. */
  lemma FlagUnion(b: byte, f: bv8, g: bv8)
    ensures IsFlagActive(b, f | g) <==> IsFlagActive(b, f) && IsFlagActive(b, g)
  {
    var bits := b as bv8;
    assert AllBitsSet(bits, f | g) <==> AllBitsSet(bits, f) && AllBitsSet(bits, g);
  }

  /** The empty flag is always active, and a status byte carries its own flag. */
  lemma FlagTrivial(b: byte)
    ensures IsFlagActive(b, 0)
    ensures IsFlagActive(b, b as bv8)
  {
  }

  /** The two composite ionosphere-correction values: multi-frequency is
      Klobuchar plus SBAS, NovAtel iono is Klobuchar plus PSRDIFF, so either
      being reported implies both of its parts are. */
  lemma CompositeIonoFlags(b: byte)
    ensures IsFlagActive(b, IonoCorrMultiFreq) <==>
              IsFlagActive(b, IonoCorrKlobuchar) && IsFlagActive(b, IonoCorrSBAS)
    ensures IsFlagActive(b, IonoCorrNovatelIono) <==>
              IsFlagActive(b, IonoCorrKlobuchar) && IsFlagActive(b, IonoCorrPSRDIFF)
  {
    FlagUnion(b, IonoCorrKlobuchar, IonoCorrSBAS);
    FlagUnion(b, IonoCorrKlobuchar, IonoCorrPSRDIFF);
  }

  /** Status byte 0x06 reports multi-frequency correction; 0x02 alone does not. */
  lemma MultiFreqExamples()
    ensures IsFlagActive(0x06, IonoCorrMultiFreq)
    ensures IsFlagActive(0x02, IonoCorrKlobuchar) && !IsFlagActive(0x02, IonoCorrMultiFreq)
  {
  }

  // ---------------------------------------------------------------------------
  // SOLN_STATUS and GetSolnStatusString.

  const SolnStatusNotSet := -2
  const SolnStatusMin := -1
  const SolnStatusMax := 23
  const UnknownSolnStatus := "Unknown solution status"

  /** GetSolnStatusString: SOLN_STATUS_NOT_SET and the codes strictly between
      SOLN_STATUS_MIN and SOLN_STATUS_MAX are described; every other int,
      MIN and MAX included, gets the default. */
  function GetSolnStatusString(solnStatus: int): (name: string)
    ensures name == UnknownSolnStatus <==>
              !(solnStatus == SolnStatusNotSet || SolnStatusMin < solnStatus < SolnStatusMax)
  {
    match solnStatus
    case -2 => "Solution status not set"
    case 0 => "Solution computed"
    case 1 => "Insufficient observations"
    case 2 => "No convergence"
    case 3 => "Singular AtPA matrix"
    case 4 => "Covariance trace exceeds maximum (trace > 1000 m)"
    case 5 => "Test distance exceeded (maximum of 3 rejections if distance > 10 km)"
    case 6 => "Converging from cold start"
    case 7 => "CoCom limits exceeded"
    case 8 => "Variance exceeds limits"
    case 9 => "Residuals are too large"
    case 10 => "Delta position is too large"
    case 11 => "Negative variance"
    case 12 => "The position is old"
    case 13 => "Integrity warning"
    case 14 => "INS has not started yet"
    case 15 => "INS doing its coarse alignment"
    case 16 => "INS position is bad"
    case 17 => "No IMU detected"
    case 18 => "Not enough satellites to verify FIX POSITION"
    case 19 => "Fixed position is not valid"
    case 20 => "Position type (HP or XP) not authorized"
    case 21 => "Selected RTK antenna mode not possible"
    case 22 => "Logging rate not supported for this solution type"
    case _ => UnknownSolnStatus
  }

  lemma SolnStatusExamples()
    ensures GetSolnStatusString(SolnStatusMin) == UnknownSolnStatus
    ensures GetSolnStatusString(SolnStatusMax) == UnknownSolnStatus
    ensures GetSolnStatusString(SolnStatusNotSet) == "Solution status not set"
    ensures GetSolnStatusString(0) == "Solution computed"
  {
  }

  // ---------------------------------------------------------------------------
  // POSTYPE and GetPosTypeString.

  const PosTypeNotSet := -1
  const PosTypeSingle := 16
  const UnknownPosType := "UNKNOWN"

  /** The POSTYPE values other than MAX_POSTYPE: the codes GetPosTypeString names. */
  predicate IsPosTypeCode(posType: int) {
    || posType == -1
    || 0 <= posType <= 3
    || posType == 8
    || 16 <= posType <= 20
    || 32 <= posType <= 34
    || 48 <= posType <= 59
    || 64 <= posType <= 74
    || 77 <= posType <= 80
  }

  /** GetPosTypeString: each POSTYPE value has its name; gaps in the numbering
      and MAX_POSTYPE get "UNKNOWN". */
  function GetPosTypeString(posType: int): (name: string)
    ensures name == UnknownPosType <==> !IsPosTypeCode(posType)
  {
    match posType
    case -1 => "NOTSET"
    case 0 => "NONE"
    case 1 => "FIXEDPOS"
    case 2 => "FIXEDHEIGHT"
    case 3 => "FIXEDVEL"
    case 8 => "DOPPLER_VELOCITY"
    case 16 => "SINGLE"
    case 17 => "PSRDIFF"
    case 18 => "WAAS"
    case 19 => "PROPAGATED"
    case 20 => "OMNISTAR"
    case 32 => "L1_FLOAT"
    case 33 => "IONOFREE_FLOAT"
    case 34 => "NARROW_FLOAT"
    case 48 => "L1_INT"
    case 49 => "WIDE_INT"
    case 50 => "NARROW_INT"
    case 51 => "RTK_DIRECT_INS"
    case 52 => "INS"
    case 53 => "INS_PSRSP"
    case 54 => "INS_PSRDIFF"
    case 55 => "INS_RTKFLOAT"
    case 56 => "INS_RTKFIXED"
    case 57 => "INS_OMNISTAR"
    case 58 => "INS_OMNISTAR_HP"
    case 59 => "INS_OMNISTAR_XP"
    case 64 => "OMNISTAR_HP"
    case 65 => "OMNISTAR_XP"
    case 66 => "CDGPS"
    case 67 => "EXT_CONSTRAINED"
    case 68 => "PPP_CONVERGING"
    case 69 => "PPP"
    case 70 => "OPERATIONAL"
    case 71 => "WARNING"
    case 72 => "OUT_OF_BOUNDS"
    case 73 => "INS_PPP_CONVERGING"
    case 74 => "INS_PPP"
    case 77 => "PPP_BASIC_CONVERGING"
    case 78 => "PPP_BASIC"
    case 79 => "INS_PPP_BASIC_CONVERGING"
    case 80 => "INS_PPP_BASIC"
    case _ => UnknownPosType
  }

  lemma PosTypeExamples()
    ensures GetPosTypeString(PosTypeNotSet) == "NOTSET"
    ensures GetPosTypeString(PosTypeSingle) == "SINGLE"
    ensures forall t | 4 <= t <= 7 :: GetPosTypeString(t) == UnknownPosType
    ensures GetPosTypeString(81) == UnknownPosType
  {
  }

  // ---------------------------------------------------------------------------
  // DATUM_ID and GetDatumString.

  const UnknownDatumId := -1
  const LastDatumId := 86
  const UnknownDatum := "UNKNOWN DATUM"

  /** GetDatumString: UNKNOWN_DATUM (-1) is named "UNKNOWN_DATUM", the DATUM_ID
      values 1 (ADIND) to 86 (TOYM) their enum name, and every other int gets
      "UNKNOWN DATUM". */
  function GetDatumString(datum: int): (name: string)
    ensures name == UnknownDatum <==> !(datum == UnknownDatumId || 1 <= datum <= LastDatumId)
  {
    match datum
    case -1 => "UNKNOWN_DATUM"
    case 1 => "ADIND"
    case 2 => "ARC50"
    case 3 => "ARC60"
    case 4 => "AGD66"
    case 5 => "AGD84"
    case 6 => "BUKIT"
    case 7 => "ASTRO"
    case 8 => "CHATM"
    case 9 => "CARTH"
    case 10 => "CAPE"
    case 11 => "DJAKA"
    case 12 => "EGYPT"
    case 13 => "ED50"
    case 14 => "ED79"
    case 15 => "GUNSG"
    case 16 => "GEO49"
    case 17 => "GRB36"
    case 18 => "GUAM"
    case 19 => "HAWAII"
    case 20 => "KAUAI"
    case 21 => "MAUI"
    case 22 => "OAHU"
    case 23 => "HERAT"
    case 24 => "HJORS"
    case 25 => "HONGK"
    case 26 => "HUTZU"
    case 27 => "INDIA"
    case 28 => "IRE65"
    case 29 => "KERTA"
    case 30 => "KANDA"
    case 31 => "LIBER"
    case 32 => "LUZON"
    case 33 => "MINDA"
    case 34 => "MERCH"
    case 35 => "NAHR"
    case 36 => "NAD83"
    case 37 => "CANADA"
    case 38 => "ALASKA"
    case 39 => "NAD27"
    case 40 => "CARIBB"
    case 41 => "MEXICO"
    case 42 => "CAMER"
    case 43 => "MINNA"
    case 44 => "OMAN"
    case 45 => "PUERTO"
    case 46 => "QORNO"
    case 47 => "ROME"
    case 48 => "CHUA"
    case 49 => "SAM56"
    case 50 => "SAM69"
    case 51 => "CAMPO"
    case 52 => "SACOR"
    case 53 => "YACAR"
    case 54 => "TANAN"
    case 55 => "TIMBA"
    case 56 => "TOKYO"
    case 57 => "TRIST"
    case 58 => "VITI"
    case 59 => "WAK60"
    case 60 => "WGS72"
    case 61 => "WGS84"
    case 62 => "ZANDE"
    case 63 => "USER"
    case 64 => "CSRS"
    case 65 => "ADIM"
    case 66 => "ARSM"
    case 67 => "ENW"
    case 68 => "HTN"
    case 69 => "INDB"
    case 70 => "INDI"
    case 71 => "IRL"
    case 72 => "LUZA"
    case 73 => "LUZB"
    case 74 => "NAHC"
    case 75 => "NASP"
    case 76 => "OGMB"
    case 77 => "OHAA"
    case 78 => "OHAB"
    case 79 => "OHAC"
    case 80 => "OHAD"
    case 81 => "OHIA"
    case 82 => "OHIB"
    case 83 => "OHIC"
    case 84 => "OHID"
    case 85 => "TIL"
    case 86 => "TOYM"
    case _ => UnknownDatum
  }

  lemma DatumExamples()
    ensures GetDatumString(UnknownDatumId) == "UNKNOWN_DATUM"
    ensures GetDatumString(1) == "ADIND"
    ensures GetDatumString(61) == "WGS84"
    ensures GetDatumString(86) == "TOYM"
    ensures GetDatumString(0) == UnknownDatum && GetDatumString(87) == UnknownDatum
  {
  }

  // ---------------------------------------------------------------------------
  // COMPONENT_TYPE and GetCompTypeString.

  const UnknownComponent := "Unknown component"

  /** The COMPONENT_TYPE values GetCompTypeString describes: all but UNKNOWN (0). */
  predicate IsDescribedComponent(compType: int) {
    || 1 <= compType <= 3
    || compType == 8
    || 12 <= compType <= 16
    || compType == 0x3A7A_0000
    || compType == 0x3A7A_0001
    || compType == 0x3A7A_0005
  }

  /** GetCompTypeString: the described component types get their description,
      UNKNOWN and every other int the default. */
  function GetCompTypeString(compType: int): (name: string)
    ensures name == UnknownComponent <==> !IsDescribedComponent(compType)
  {
    match compType
    case 1 => "OEM family component"
    case 2 => "Reserved"
    case 3 => "OEM card enclosure"
    case 8 => "Application specific information"
    case 0x3A7A_0000 => "Height/track model data"
    case 0x3A7A_0001 => "User application firmware"
    case 0x3A7A_0005 => "Auto-starting user application firmware"
    case 12 => "OEM638 FPGA version"
    case 13 => "Second card in a ProPak6"
    case 14 => "Bluetooth component in a ProPak6"
    case 15 => "Wi-Fi component in a ProPak6"
    case 16 => "Cellular component in a ProPak6"
    case _ => UnknownComponent
  }

  lemma CompTypeExamples()
    ensures GetCompTypeString(0) == UnknownComponent
    ensures GetCompTypeString(1) == "OEM family component"
    ensures GetCompTypeString(0x3A7A_0005) == "Auto-starting user application firmware"
  {
  }
}
