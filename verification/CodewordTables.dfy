/** Block structure by version and level: the encoder's two tables and the decoder's list, and that they agree. */
module CodewordTables {
  import opened Bits
  import opened Blocks
  import opened ModuleCount

  datatype EcBlocks = EcBlocks(numBlocks: nat, dataCodewordsPerBlock: nat)

  datatype EcLevel = EcLevel(ecCodewordsPerBlock: nat, ecBlocks: seq<EcBlocks>)

  /** What the sides list for a version, by error correction level: two tables of the encoder, one of the decoder. */
  datatype VersionRow = VersionRow(eccCodewordsPerBlock: seq<nat>, numErrorCorrectionBlocks: seq<nat>,
                                   errorCorrectionLevels: seq<EcLevel>)

  function RowOf(version: nat): VersionRow {
    if version <= 5 then Rows1To5(version)
    else if version <= 10 then Rows6To10(version)
    else if version <= 15 then Rows11To15(version)
    else if version <= 20 then Rows16To20(version)
    else if version <= 25 then Rows21To25(version)
    else if version <= 30 then Rows26To30(version)
    else if version <= 35 then Rows31To35(version)
    else Rows36To40(version)
  }

  function Rows1To5(version: nat): VersionRow {
    match version
    case 1 =>
      VersionRow([7, 10, 13, 17], [1, 1, 1, 1], [
        EcLevel(7, [EcBlocks(1, 19)]), EcLevel(10, [EcBlocks(1, 16)]), EcLevel(13, [EcBlocks(1, 13)]),
        EcLevel(17, [EcBlocks(1, 9)])])
    case 2 =>
      VersionRow([10, 16, 22, 28], [1, 1, 1, 1], [
        EcLevel(10, [EcBlocks(1, 34)]), EcLevel(16, [EcBlocks(1, 28)]), EcLevel(22, [EcBlocks(1, 22)]),
        EcLevel(28, [EcBlocks(1, 16)])])
    case 3 =>
      VersionRow([15, 26, 18, 22], [1, 1, 2, 2], [
        EcLevel(15, [EcBlocks(1, 55)]), EcLevel(26, [EcBlocks(1, 44)]), EcLevel(18, [EcBlocks(2, 17)]),
        EcLevel(22, [EcBlocks(2, 13)])])
    case 4 =>
      VersionRow([20, 18, 26, 16], [1, 2, 2, 4], [
        EcLevel(20, [EcBlocks(1, 80)]), EcLevel(18, [EcBlocks(2, 32)]), EcLevel(26, [EcBlocks(2, 24)]),
        EcLevel(16, [EcBlocks(4, 9)])])
    case 5 =>
      VersionRow([26, 24, 18, 22], [1, 2, 4, 4], [
        EcLevel(26, [EcBlocks(1, 108)]), EcLevel(24, [EcBlocks(2, 43)]),
        EcLevel(18, [EcBlocks(2, 15), EcBlocks(2, 16)]), EcLevel(22, [EcBlocks(2, 11), EcBlocks(2, 12)])])
    case _ => VersionRow([], [], [])
  }

  function Rows6To10(version: nat): VersionRow {
    match version
    case 6 =>
      VersionRow([18, 16, 24, 28], [2, 4, 4, 4], [
        EcLevel(18, [EcBlocks(2, 68)]), EcLevel(16, [EcBlocks(4, 27)]), EcLevel(24, [EcBlocks(4, 19)]),
        EcLevel(28, [EcBlocks(4, 15)])])
    case 7 =>
      VersionRow([20, 18, 18, 26], [2, 4, 6, 5], [
        EcLevel(20, [EcBlocks(2, 78)]), EcLevel(18, [EcBlocks(4, 31)]),
        EcLevel(18, [EcBlocks(2, 14), EcBlocks(4, 15)]), EcLevel(26, [EcBlocks(4, 13), EcBlocks(1, 14)])])
    case 8 =>
      VersionRow([24, 22, 22, 26], [2, 4, 6, 6], [
        EcLevel(24, [EcBlocks(2, 97)]), EcLevel(22, [EcBlocks(2, 38), EcBlocks(2, 39)]),
        EcLevel(22, [EcBlocks(4, 18), EcBlocks(2, 19)]), EcLevel(26, [EcBlocks(4, 14), EcBlocks(2, 15)])])
    case 9 =>
      VersionRow([30, 22, 20, 24], [2, 5, 8, 8], [
        EcLevel(30, [EcBlocks(2, 116)]), EcLevel(22, [EcBlocks(3, 36), EcBlocks(2, 37)]),
        EcLevel(20, [EcBlocks(4, 16), EcBlocks(4, 17)]), EcLevel(24, [EcBlocks(4, 12), EcBlocks(4, 13)])])
    case 10 =>
      VersionRow([18, 26, 24, 28], [4, 5, 8, 8], [
        EcLevel(18, [EcBlocks(2, 68), EcBlocks(2, 69)]), EcLevel(26, [EcBlocks(4, 43), EcBlocks(1, 44)]),
        EcLevel(24, [EcBlocks(6, 19), EcBlocks(2, 20)]), EcLevel(28, [EcBlocks(6, 15), EcBlocks(2, 16)])])
    case _ => VersionRow([], [], [])
  }

  function Rows11To15(version: nat): VersionRow {
    match version
    case 11 =>
      VersionRow([20, 30, 28, 24], [4, 5, 8, 11], [
        EcLevel(20, [EcBlocks(4, 81)]), EcLevel(30, [EcBlocks(1, 50), EcBlocks(4, 51)]),
        EcLevel(28, [EcBlocks(4, 22), EcBlocks(4, 23)]), EcLevel(24, [EcBlocks(3, 12), EcBlocks(8, 13)])])
    case 12 =>
      VersionRow([24, 22, 26, 28], [4, 8, 10, 11], [
        EcLevel(24, [EcBlocks(2, 92), EcBlocks(2, 93)]), EcLevel(22, [EcBlocks(6, 36), EcBlocks(2, 37)]),
        EcLevel(26, [EcBlocks(4, 20), EcBlocks(6, 21)]), EcLevel(28, [EcBlocks(7, 14), EcBlocks(4, 15)])])
    case 13 =>
      VersionRow([26, 22, 24, 22], [4, 9, 12, 16], [
        EcLevel(26, [EcBlocks(4, 107)]), EcLevel(22, [EcBlocks(8, 37), EcBlocks(1, 38)]),
        EcLevel(24, [EcBlocks(8, 20), EcBlocks(4, 21)]), EcLevel(22, [EcBlocks(12, 11), EcBlocks(4, 12)])])
    case 14 =>
      VersionRow([30, 24, 20, 24], [4, 9, 16, 16], [
        EcLevel(30, [EcBlocks(3, 115), EcBlocks(1, 116)]), EcLevel(24, [EcBlocks(4, 40), EcBlocks(5, 41)]),
        EcLevel(20, [EcBlocks(11, 16), EcBlocks(5, 17)]), EcLevel(24, [EcBlocks(11, 12), EcBlocks(5, 13)])])
    case 15 =>
      VersionRow([22, 24, 30, 24], [6, 10, 12, 18], [
        EcLevel(22, [EcBlocks(5, 87), EcBlocks(1, 88)]), EcLevel(24, [EcBlocks(5, 41), EcBlocks(5, 42)]),
        EcLevel(30, [EcBlocks(5, 24), EcBlocks(7, 25)]), EcLevel(24, [EcBlocks(11, 12), EcBlocks(7, 13)])])
    case _ => VersionRow([], [], [])
  }

  function Rows16To20(version: nat): VersionRow {
    match version
    case 16 =>
      VersionRow([24, 28, 24, 30], [6, 10, 17, 16], [
        EcLevel(24, [EcBlocks(5, 98), EcBlocks(1, 99)]), EcLevel(28, [EcBlocks(7, 45), EcBlocks(3, 46)]),
        EcLevel(24, [EcBlocks(15, 19), EcBlocks(2, 20)]), EcLevel(30, [EcBlocks(3, 15), EcBlocks(13, 16)])])
    case 17 =>
      VersionRow([28, 28, 28, 28], [6, 11, 16, 19], [
        EcLevel(28, [EcBlocks(1, 107), EcBlocks(5, 108)]), EcLevel(28, [EcBlocks(10, 46), EcBlocks(1, 47)]),
        EcLevel(28, [EcBlocks(1, 22), EcBlocks(15, 23)]), EcLevel(28, [EcBlocks(2, 14), EcBlocks(17, 15)])])
    case 18 =>
      VersionRow([30, 26, 28, 28], [6, 13, 18, 21], [
        EcLevel(30, [EcBlocks(5, 120), EcBlocks(1, 121)]), EcLevel(26, [EcBlocks(9, 43), EcBlocks(4, 44)]),
        EcLevel(28, [EcBlocks(17, 22), EcBlocks(1, 23)]), EcLevel(28, [EcBlocks(2, 14), EcBlocks(19, 15)])])
    case 19 =>
      VersionRow([28, 26, 26, 26], [7, 14, 21, 25], [
        EcLevel(28, [EcBlocks(3, 113), EcBlocks(4, 114)]), EcLevel(26, [EcBlocks(3, 44), EcBlocks(11, 45)]),
        EcLevel(26, [EcBlocks(17, 21), EcBlocks(4, 22)]), EcLevel(26, [EcBlocks(9, 13), EcBlocks(16, 14)])])
    case 20 =>
      VersionRow([28, 26, 30, 28], [8, 16, 20, 25], [
        EcLevel(28, [EcBlocks(3, 107), EcBlocks(5, 108)]), EcLevel(26, [EcBlocks(3, 41), EcBlocks(13, 42)]),
        EcLevel(30, [EcBlocks(15, 24), EcBlocks(5, 25)]), EcLevel(28, [EcBlocks(15, 15), EcBlocks(10, 16)])])
    case _ => VersionRow([], [], [])
  }

  function Rows21To25(version: nat): VersionRow {
    match version
    case 21 =>
      VersionRow([28, 26, 28, 30], [8, 17, 23, 25], [
        EcLevel(28, [EcBlocks(4, 116), EcBlocks(4, 117)]), EcLevel(26, [EcBlocks(17, 42)]),
        EcLevel(28, [EcBlocks(17, 22), EcBlocks(6, 23)]), EcLevel(30, [EcBlocks(19, 16), EcBlocks(6, 17)])])
    case 22 =>
      VersionRow([28, 28, 30, 24], [9, 17, 23, 34], [
        EcLevel(28, [EcBlocks(2, 111), EcBlocks(7, 112)]), EcLevel(28, [EcBlocks(17, 46)]),
        EcLevel(30, [EcBlocks(7, 24), EcBlocks(16, 25)]), EcLevel(24, [EcBlocks(34, 13)])])
    case 23 =>
      VersionRow([30, 28, 30, 30], [9, 18, 25, 30], [
        EcLevel(30, [EcBlocks(4, 121), EcBlocks(5, 122)]), EcLevel(28, [EcBlocks(4, 47), EcBlocks(14, 48)]),
        EcLevel(30, [EcBlocks(11, 24), EcBlocks(14, 25)]), EcLevel(30, [EcBlocks(16, 15), EcBlocks(14, 16)])])
    case 24 =>
      VersionRow([30, 28, 30, 30], [10, 20, 27, 32], [
        EcLevel(30, [EcBlocks(6, 117), EcBlocks(4, 118)]), EcLevel(28, [EcBlocks(6, 45), EcBlocks(14, 46)]),
        EcLevel(30, [EcBlocks(11, 24), EcBlocks(16, 25)]), EcLevel(30, [EcBlocks(30, 16), EcBlocks(2, 17)])])
    case 25 =>
      VersionRow([26, 28, 30, 30], [12, 21, 29, 35], [
        EcLevel(26, [EcBlocks(8, 106), EcBlocks(4, 107)]), EcLevel(28, [EcBlocks(8, 47), EcBlocks(13, 48)]),
        EcLevel(30, [EcBlocks(7, 24), EcBlocks(22, 25)]), EcLevel(30, [EcBlocks(22, 15), EcBlocks(13, 16)])])
    case _ => VersionRow([], [], [])
  }

  function Rows26To30(version: nat): VersionRow {
    match version
    case 26 =>
      VersionRow([28, 28, 28, 30], [12, 23, 34, 37], [
        EcLevel(28, [EcBlocks(10, 114), EcBlocks(2, 115)]), EcLevel(28, [EcBlocks(19, 46), EcBlocks(4, 47)]),
        EcLevel(28, [EcBlocks(28, 22), EcBlocks(6, 23)]), EcLevel(30, [EcBlocks(33, 16), EcBlocks(4, 17)])])
    case 27 =>
      VersionRow([30, 28, 30, 30], [12, 25, 34, 40], [
        EcLevel(30, [EcBlocks(8, 122), EcBlocks(4, 123)]), EcLevel(28, [EcBlocks(22, 45), EcBlocks(3, 46)]),
        EcLevel(30, [EcBlocks(8, 23), EcBlocks(26, 24)]), EcLevel(30, [EcBlocks(12, 15), EcBlocks(28, 16)])])
    case 28 =>
      VersionRow([30, 28, 30, 30], [13, 26, 35, 42], [
        EcLevel(30, [EcBlocks(3, 117), EcBlocks(10, 118)]), EcLevel(28, [EcBlocks(3, 45), EcBlocks(23, 46)]),
        EcLevel(30, [EcBlocks(4, 24), EcBlocks(31, 25)]), EcLevel(30, [EcBlocks(11, 15), EcBlocks(31, 16)])])
    case 29 =>
      VersionRow([30, 28, 30, 30], [14, 28, 38, 45], [
        EcLevel(30, [EcBlocks(7, 116), EcBlocks(7, 117)]), EcLevel(28, [EcBlocks(21, 45), EcBlocks(7, 46)]),
        EcLevel(30, [EcBlocks(1, 23), EcBlocks(37, 24)]), EcLevel(30, [EcBlocks(19, 15), EcBlocks(26, 16)])])
    case 30 =>
      VersionRow([30, 28, 30, 30], [15, 29, 40, 48], [
        EcLevel(30, [EcBlocks(5, 115), EcBlocks(10, 116)]), EcLevel(28, [EcBlocks(19, 47), EcBlocks(10, 48)]),
        EcLevel(30, [EcBlocks(15, 24), EcBlocks(25, 25)]), EcLevel(30, [EcBlocks(23, 15), EcBlocks(25, 16)])])
    case _ => VersionRow([], [], [])
  }

  function Rows31To35(version: nat): VersionRow {
    match version
    case 31 =>
      VersionRow([30, 28, 30, 30], [16, 31, 43, 51], [
        EcLevel(30, [EcBlocks(13, 115), EcBlocks(3, 116)]), EcLevel(28, [EcBlocks(2, 46), EcBlocks(29, 47)]),
        EcLevel(30, [EcBlocks(42, 24), EcBlocks(1, 25)]), EcLevel(30, [EcBlocks(23, 15), EcBlocks(28, 16)])])
    case 32 =>
      VersionRow([30, 28, 30, 30], [17, 33, 45, 54], [
        EcLevel(30, [EcBlocks(17, 115)]), EcLevel(28, [EcBlocks(10, 46), EcBlocks(23, 47)]),
        EcLevel(30, [EcBlocks(10, 24), EcBlocks(35, 25)]), EcLevel(30, [EcBlocks(19, 15), EcBlocks(35, 16)])])
    case 33 =>
      VersionRow([30, 28, 30, 30], [18, 35, 48, 57], [
        EcLevel(30, [EcBlocks(17, 115), EcBlocks(1, 116)]), EcLevel(28, [EcBlocks(14, 46), EcBlocks(21, 47)]),
        EcLevel(30, [EcBlocks(29, 24), EcBlocks(19, 25)]), EcLevel(30, [EcBlocks(11, 15), EcBlocks(46, 16)])])
    case 34 =>
      VersionRow([30, 28, 30, 30], [19, 37, 51, 60], [
        EcLevel(30, [EcBlocks(13, 115), EcBlocks(6, 116)]), EcLevel(28, [EcBlocks(14, 46), EcBlocks(23, 47)]),
        EcLevel(30, [EcBlocks(44, 24), EcBlocks(7, 25)]), EcLevel(30, [EcBlocks(59, 16), EcBlocks(1, 17)])])
    case 35 =>
      VersionRow([30, 28, 30, 30], [19, 38, 53, 63], [
        EcLevel(30, [EcBlocks(12, 121), EcBlocks(7, 122)]), EcLevel(28, [EcBlocks(12, 47), EcBlocks(26, 48)]),
        EcLevel(30, [EcBlocks(39, 24), EcBlocks(14, 25)]), EcLevel(30, [EcBlocks(22, 15), EcBlocks(41, 16)])])
    case _ => VersionRow([], [], [])
  }

  function Rows36To40(version: nat): VersionRow {
    match version
    case 36 =>
      VersionRow([30, 28, 30, 30], [20, 40, 56, 66], [
        EcLevel(30, [EcBlocks(6, 121), EcBlocks(14, 122)]), EcLevel(28, [EcBlocks(6, 47), EcBlocks(34, 48)]),
        EcLevel(30, [EcBlocks(46, 24), EcBlocks(10, 25)]), EcLevel(30, [EcBlocks(2, 15), EcBlocks(64, 16)])])
    case 37 =>
      VersionRow([30, 28, 30, 30], [21, 43, 59, 70], [
        EcLevel(30, [EcBlocks(17, 122), EcBlocks(4, 123)]), EcLevel(28, [EcBlocks(29, 46), EcBlocks(14, 47)]),
        EcLevel(30, [EcBlocks(49, 24), EcBlocks(10, 25)]), EcLevel(30, [EcBlocks(24, 15), EcBlocks(46, 16)])])
    case 38 =>
      VersionRow([30, 28, 30, 30], [22, 45, 62, 74], [
        EcLevel(30, [EcBlocks(4, 122), EcBlocks(18, 123)]), EcLevel(28, [EcBlocks(13, 46), EcBlocks(32, 47)]),
        EcLevel(30, [EcBlocks(48, 24), EcBlocks(14, 25)]), EcLevel(30, [EcBlocks(42, 15), EcBlocks(32, 16)])])
    case 39 =>
      VersionRow([30, 28, 30, 30], [24, 47, 65, 77], [
        EcLevel(30, [EcBlocks(20, 117), EcBlocks(4, 118)]), EcLevel(28, [EcBlocks(40, 47), EcBlocks(7, 48)]),
        EcLevel(30, [EcBlocks(43, 24), EcBlocks(22, 25)]), EcLevel(30, [EcBlocks(10, 15), EcBlocks(67, 16)])])
    case _ =>
      VersionRow([30, 28, 30, 30], [25, 49, 68, 81], [
        EcLevel(30, [EcBlocks(19, 118), EcBlocks(6, 119)]), EcLevel(28, [EcBlocks(18, 47), EcBlocks(31, 48)]),
        EcLevel(30, [EcBlocks(34, 24), EcBlocks(34, 25)]), EcLevel(30, [EcBlocks(20, 15), EcBlocks(61, 16)])])
  }

  // ----- every row describes all codewords of its version

  function RawCodewords(version: nat): nat
    requires 1 <= version <= 40
  {
    RawRange(version);
    NumRawDataModules(version) / 8
  }

  /** Blocks of one length, or of two lengths that differ by 1; together they are all codewords. */
  predicate BlocksFill(raw: nat, blocks: nat, ecc: nat, row: EcLevel) {
    && ecc >= 1 && row.ecCodewordsPerBlock == ecc && 1 <= |row.ecBlocks| <= 2
    && var short := row.ecBlocks[0];
    && 1 <= short.numBlocks <= blocks && short.dataCodewordsPerBlock + 1 + ecc <= 255
    && raw == blocks * (short.dataCodewordsPerBlock + ecc) + blocks - short.numBlocks
    && (if |row.ecBlocks| == 1 then blocks == short.numBlocks
        else row.ecBlocks[1] == EcBlocks(blocks - short.numBlocks, short.dataCodewordsPerBlock + 1))
  }

  predicate RowFills(raw: nat, r: VersionRow) {
    && |r.eccCodewordsPerBlock| == |r.numErrorCorrectionBlocks| == |r.errorCorrectionLevels| == 4
    && BlocksFill(raw, r.numErrorCorrectionBlocks[0], r.eccCodewordsPerBlock[0], r.errorCorrectionLevels[0])
    && BlocksFill(raw, r.numErrorCorrectionBlocks[1], r.eccCodewordsPerBlock[1], r.errorCorrectionLevels[1])
    && BlocksFill(raw, r.numErrorCorrectionBlocks[2], r.eccCodewordsPerBlock[2], r.errorCorrectionLevels[2])
    && BlocksFill(raw, r.numErrorCorrectionBlocks[3], r.eccCodewordsPerBlock[3], r.errorCorrectionLevels[3])
  }

  lemma Raw1To5(version: nat)
    requires 1 <= version <= 5
    ensures RawCodewords(version) ==
      if version == 1 then 26 else if version == 2 then 44 else if version == 3 then 70
      else if version == 4 then 100 else 134
  {}

  lemma Fill1To5(version: nat)
    requires 1 <= version <= 5
    ensures RowFills(RawCodewords(version), RowOf(version))
  {
    hide RawCodewords;
    Raw1To5(version);
    if version == 1 {
    } else if version == 2 {
    } else if version == 3 {
    } else if version == 4 {
    } else {
    }
  }

  lemma Raw6To10(version: nat)
    requires 6 <= version <= 10
    ensures RawCodewords(version) ==
      if version == 6 then 172 else if version == 7 then 196 else if version == 8 then 242
      else if version == 9 then 292 else 346
  {}

  lemma Fill6To10(version: nat)
    requires 6 <= version <= 10
    ensures RowFills(RawCodewords(version), RowOf(version))
  {
    hide RawCodewords;
    Raw6To10(version);
    if version == 6 {
    } else if version == 7 {
    } else if version == 8 {
    } else if version == 9 {
    } else {
    }
  }

  lemma Raw11To15(version: nat)
    requires 11 <= version <= 15
    ensures RawCodewords(version) ==
      if version == 11 then 404 else if version == 12 then 466 else if version == 13 then 532
      else if version == 14 then 581 else 655
  {}

  lemma Fill11To15(version: nat)
    requires 11 <= version <= 15
    ensures RowFills(RawCodewords(version), RowOf(version))
  {
    hide RawCodewords;
    Raw11To15(version);
    if version == 11 {
    } else if version == 12 {
    } else if version == 13 {
    } else if version == 14 {
    } else {
    }
  }

  lemma Raw16To20(version: nat)
    requires 16 <= version <= 20
    ensures RawCodewords(version) ==
      if version == 16 then 733 else if version == 17 then 815 else if version == 18 then 901
      else if version == 19 then 991 else 1085
  {}

  lemma Fill16To20(version: nat)
    requires 16 <= version <= 20
    ensures RowFills(RawCodewords(version), RowOf(version))
  {
    hide RawCodewords;
    Raw16To20(version);
    if version == 16 {
    } else if version == 17 {
    } else if version == 18 {
    } else if version == 19 {
    } else {
    }
  }

  lemma Raw21To25(version: nat)
    requires 21 <= version <= 25
    ensures RawCodewords(version) ==
      if version == 21 then 1156 else if version == 22 then 1258 else if version == 23 then 1364
      else if version == 24 then 1474 else 1588
  {}

  lemma Fill21To25(version: nat)
    requires 21 <= version <= 25
    ensures RowFills(RawCodewords(version), RowOf(version))
  {
    hide RawCodewords;
    Raw21To25(version);
    if version == 21 {
    } else if version == 22 {
    } else if version == 23 {
    } else if version == 24 {
    } else {
    }
  }

  lemma Raw26To30(version: nat)
    requires 26 <= version <= 30
    ensures RawCodewords(version) ==
      if version == 26 then 1706 else if version == 27 then 1828 else if version == 28 then 1921
      else if version == 29 then 2051 else 2185
  {}

  lemma Fill26To30(version: nat)
    requires 26 <= version <= 30
    ensures RowFills(RawCodewords(version), RowOf(version))
  {
    hide RawCodewords;
    Raw26To30(version);
    if version == 26 {
    } else if version == 27 {
    } else if version == 28 {
    } else if version == 29 {
    } else {
    }
  }

  lemma Raw31To35(version: nat)
    requires 31 <= version <= 35
    ensures RawCodewords(version) ==
      if version == 31 then 2323 else if version == 32 then 2465 else if version == 33 then 2611
      else if version == 34 then 2761 else 2876
  {}

  lemma Fill31To35(version: nat)
    requires 31 <= version <= 35
    ensures RowFills(RawCodewords(version), RowOf(version))
  {
    hide RawCodewords;
    Raw31To35(version);
    if version == 31 {
    } else if version == 32 {
    } else if version == 33 {
    } else if version == 34 {
    } else {
    }
  }

  lemma Raw36To40(version: nat)
    requires 36 <= version <= 40
    ensures RawCodewords(version) ==
      if version == 36 then 3034 else if version == 37 then 3196 else if version == 38 then 3362
      else if version == 39 then 3532 else 3706
  {}

  lemma Fill36To40(version: nat)
    requires 36 <= version <= 40
    ensures RowFills(RawCodewords(version), RowOf(version))
  {
    hide RawCodewords;
    Raw36To40(version);
    if version == 36 {
    } else if version == 37 {
    } else if version == 38 {
    } else if version == 39 {
    } else {
    }
  }

  lemma EveryRowFills(version: nat)
    requires 1 <= version <= 40
    ensures RowFills(RawCodewords(version), RowOf(version))
  {
    hide RowFills, RowOf, RawCodewords;
    if version <= 5 {
      Fill1To5(version);
    } else if version <= 10 {
      Fill6To10(version);
    } else if version <= 15 {
      Fill11To15(version);
    } else if version <= 20 {
      Fill16To20(version);
    } else if version <= 25 {
      Fill21To25(version);
    } else if version <= 30 {
      Fill26To30(version);
    } else if version <= 35 {
      Fill31To35(version);
    } else {
      Fill36To40(version);
    }
  }

  lemma LevelFills(version: nat, level: nat)
    requires 1 <= version <= 40 && level < 4
    ensures var r := RowOf(version);
            && |r.eccCodewordsPerBlock| == |r.numErrorCorrectionBlocks| == |r.errorCorrectionLevels| == 4
            && BlocksFill(RawCodewords(version), r.numErrorCorrectionBlocks[level], r.eccCodewordsPerBlock[level],
                          r.errorCorrectionLevels[level])
  {
    hide RowOf, RawCodewords, BlocksFill;
    EveryRowFills(version);
  }

  // ----- what the encoder takes from its tables

  function NumBlocks(version: nat, level: nat): (r: nat)
    requires 1 <= version <= 40 && level < 4
    ensures r >= 1
  {
    hide RowOf;
    LevelFills(version, level);
    RowOf(version).numErrorCorrectionBlocks[level]
  }

  function EccLen(version: nat, level: nat): (r: nat)
    requires 1 <= version <= 40 && level < 4
    ensures r >= 1
  {
    hide RowOf;
    LevelFills(version, level);
    RowOf(version).eccCodewordsPerBlock[level]
  }

  /** The remainder of the division is the number of long blocks. */
  lemma FilledShape(raw: nat, blocks: nat, ecc: nat, row: EcLevel)
    requires BlocksFill(raw, blocks, ecc, row)
    ensures raw / blocks == row.ecBlocks[0].dataCodewordsPerBlock + ecc
    ensures raw % blocks == blocks - row.ecBlocks[0].numBlocks
  {
    var q, r := row.ecBlocks[0].dataCodewordsPerBlock + ecc, blocks - row.ecBlocks[0].numBlocks;
    RemainderIs(raw, blocks, q, r);
    QuotientIs(raw, blocks, q, r);
  }

  lemma BlocksSound(version: nat, level: nat)
    requires 1 <= version <= 40 && level < 4
    ensures var q := RawCodewords(version) / NumBlocks(version, level);
            q >= EccLen(version, level) && q + 1 <= 255
  {
    hide RowOf, RawCodewords;
    LevelFills(version, level);
    var r := RowOf(version);
    FilledShape(RawCodewords(version), NumBlocks(version, level), EccLen(version, level),
                r.errorCorrectionLevels[level]);
  }

  /** The shape of the blocks, as the encoder computes it. */
  function ShapeFor(version: nat, level: nat): Shape
    requires 1 <= version <= 40 && level < 4
  {
    BlocksSound(version, level);
    ShapeOf(NumBlocks(version, level), EccLen(version, level), RawCodewords(version))
  }

  function GetNumDataCodewords(version: nat, level: nat): nat
    requires 1 <= version <= 40 && level < 4
  {
    hide RawCodewords, NumBlocks, EccLen;
    BlocksSound(version, level);
    ShapeOfExact(NumBlocks(version, level), EccLen(version, level), RawCodewords(version));
    RawCodewords(version) - NumBlocks(version, level) * EccLen(version, level)
  }

  /** The shape accounts for all codewords, and no block is longer than the field allows. */
  lemma ShapeParts(version: nat, level: nat)
    requires 1 <= version <= 40 && level < 4
    ensures var s := ShapeFor(version, level);
            && s.Valid() && s.shortLen + 1 + s.eccLen <= 255 && s.eccLen == EccLen(version, level)
            && s.RawLen() == RawCodewords(version) && s.DataLen() == GetNumDataCodewords(version, level)
  {
    hide RawCodewords, NumBlocks, EccLen;
    BlocksSound(version, level);
    ShapeOfExact(NumBlocks(version, level), EccLen(version, level), RawCodewords(version));
  }

  lemma DataBelowRaw(version: nat, level: nat)
    requires 1 <= version <= 40 && level < 4
    ensures GetNumDataCodewords(version, level) <= RawCodewords(version)
  {
    hide RawCodewords, NumBlocks, EccLen;
    BlocksSound(version, level);
    ShapeOfExact(NumBlocks(version, level), EccLen(version, level), RawCodewords(version));
  }

  // ----- what the decoder takes from its rows

  /** Short blocks first; the second entry of a row, if there is one, lists the long blocks. */
  function DecoderShape(version: nat, level: nat): Shape
    requires 1 <= version <= 40 && level < 4
  {
    hide RowOf;
    LevelFills(version, level);
    var row := RowOf(version).errorCorrectionLevels[level];
    var long := if |row.ecBlocks| > 1 then row.ecBlocks[1].numBlocks else 0;
    Shape(row.ecBlocks[0].numBlocks + long, row.ecBlocks[0].numBlocks, row.ecBlocks[0].dataCodewordsPerBlock,
          row.ecCodewordsPerBlock)
  }

  /** The decoder's rows describe the blocks that the encoder makes, for all versions and levels. */
  lemma RowsAgree(version: nat, level: nat)
    requires 1 <= version <= 40 && level < 4
    ensures DecoderShape(version, level) == ShapeFor(version, level)
  {
    hide RowOf, RawCodewords;
    LevelFills(version, level);
    BlocksSound(version, level);
    FilledShape(RawCodewords(version), NumBlocks(version, level), EccLen(version, level),
                RowOf(version).errorCorrectionLevels[level]);
  }
}
