/** The decoder's list of alignment centres, compared with the encoder's formula version by version. */
module AlignmentTable {
  import opened Regions
  import opened FunctionPatterns
  import opened FunctionModules

  const ALIGNMENT_PATTERN_CENTERS: seq<seq<nat>> :=
    [
      [],
      [6, 18],
      [6, 22],
      [6, 26],
      [6, 30],
      [6, 34],
      [6, 22, 38],
      [6, 24, 42],
      [6, 26, 46],
      [6, 28, 50],
      [6, 30, 54],
      [6, 32, 58],
      [6, 34, 62],
      [6, 26, 46, 66],
      [6, 26, 48, 70],
      [6, 26, 50, 74],
      [6, 30, 54, 78],
      [6, 30, 56, 82],
      [6, 30, 58, 86],
      [6, 34, 62, 90],
      [6, 28, 50, 72, 94],
      [6, 26, 50, 74, 98],
      [6, 30, 54, 74, 102],
      [6, 28, 54, 80, 106],
      [6, 32, 58, 84, 110],
      [6, 30, 58, 86, 114],
      [6, 34, 62, 90, 118],
      [6, 26, 50, 74, 98, 122],
      [6, 30, 54, 78, 102, 126],
      [6, 26, 52, 78, 104, 130],
      [6, 30, 56, 82, 108, 134],
      [6, 34, 60, 86, 112, 138],
      [6, 30, 58, 86, 114, 142],
      [6, 34, 62, 90, 118, 146],
      [6, 30, 54, 78, 102, 126, 150],
      [6, 24, 50, 76, 102, 128, 154],
      [6, 28, 54, 80, 106, 132, 158],
      [6, 32, 58, 84, 110, 136, 162],
      [6, 26, 54, 82, 110, 138, 166],
      [6, 30, 58, 86, 114, 142, 170]
    ]

  /** A row that follows the formula, given the number of centres and the step between them. */
  lemma RowFollows(version: nat, n: nat, step: nat, row: seq<nat>)
    requires 2 <= version <= 40 && n == version / 7 + 2 == |row| && step == Step(version)
    requires row[0] == 6 && forall k :: 1 <= k < n ==> row[k] == version * 4 + 10 - step * (n - 1 - k)
    ensures Centres(version, row)
  {
    hide Step;
  }

  lemma RowsFollow0(version: nat)
    requires 2 <= version <= 5
    ensures Centres(version, ALIGNMENT_PATTERN_CENTERS[version - 1])
  {
    hide Centres, Positions;
    if version == 2 {
      RowFollows(2, 2, 12, ALIGNMENT_PATTERN_CENTERS[1]);
    } else if version == 3 {
      RowFollows(3, 2, 16, ALIGNMENT_PATTERN_CENTERS[2]);
    } else if version == 4 {
      RowFollows(4, 2, 20, ALIGNMENT_PATTERN_CENTERS[3]);
    } else if version == 5 {
      RowFollows(5, 2, 24, ALIGNMENT_PATTERN_CENTERS[4]);
    }
  }

  lemma RowsFollow1(version: nat)
    requires 6 <= version <= 9
    ensures Centres(version, ALIGNMENT_PATTERN_CENTERS[version - 1])
  {
    hide Centres, Positions;
    if version == 6 {
      RowFollows(6, 2, 28, ALIGNMENT_PATTERN_CENTERS[5]);
    } else if version == 7 {
      RowFollows(7, 3, 16, ALIGNMENT_PATTERN_CENTERS[6]);
    } else if version == 8 {
      RowFollows(8, 3, 18, ALIGNMENT_PATTERN_CENTERS[7]);
    } else if version == 9 {
      RowFollows(9, 3, 20, ALIGNMENT_PATTERN_CENTERS[8]);
    }
  }

  lemma RowsFollow2(version: nat)
    requires 10 <= version <= 13
    ensures Centres(version, ALIGNMENT_PATTERN_CENTERS[version - 1])
  {
    hide Centres, Positions;
    if version == 10 {
      RowFollows(10, 3, 22, ALIGNMENT_PATTERN_CENTERS[9]);
    } else if version == 11 {
      RowFollows(11, 3, 24, ALIGNMENT_PATTERN_CENTERS[10]);
    } else if version == 12 {
      RowFollows(12, 3, 26, ALIGNMENT_PATTERN_CENTERS[11]);
    } else if version == 13 {
      RowFollows(13, 3, 28, ALIGNMENT_PATTERN_CENTERS[12]);
    }
  }

  lemma RowsFollow3(version: nat)
    requires 14 <= version <= 17
    ensures Centres(version, ALIGNMENT_PATTERN_CENTERS[version - 1])
  {
    hide Centres, Positions;
    if version == 14 {
      RowFollows(14, 4, 20, ALIGNMENT_PATTERN_CENTERS[13]);
    } else if version == 15 {
      RowFollows(15, 4, 22, ALIGNMENT_PATTERN_CENTERS[14]);
    } else if version == 16 {
      RowFollows(16, 4, 24, ALIGNMENT_PATTERN_CENTERS[15]);
    } else if version == 17 {
      RowFollows(17, 4, 24, ALIGNMENT_PATTERN_CENTERS[16]);
    }
  }

  lemma RowsFollow4(version: nat)
    requires 18 <= version <= 21
    ensures Centres(version, ALIGNMENT_PATTERN_CENTERS[version - 1])
  {
    hide Centres, Positions;
    if version == 18 {
      RowFollows(18, 4, 26, ALIGNMENT_PATTERN_CENTERS[17]);
    } else if version == 19 {
      RowFollows(19, 4, 28, ALIGNMENT_PATTERN_CENTERS[18]);
    } else if version == 20 {
      RowFollows(20, 4, 28, ALIGNMENT_PATTERN_CENTERS[19]);
    } else if version == 21 {
      RowFollows(21, 5, 22, ALIGNMENT_PATTERN_CENTERS[20]);
    }
  }

  lemma RowsFollow5(version: nat)
    requires 22 <= version <= 25 && version != 23
    ensures Centres(version, ALIGNMENT_PATTERN_CENTERS[version - 1])
  {
    hide Centres, Positions;
    if version == 22 {
      RowFollows(22, 5, 24, ALIGNMENT_PATTERN_CENTERS[21]);
    } else if version == 24 {
      RowFollows(24, 5, 26, ALIGNMENT_PATTERN_CENTERS[23]);
    } else if version == 25 {
      RowFollows(25, 5, 26, ALIGNMENT_PATTERN_CENTERS[24]);
    }
  }

  lemma RowsFollow6(version: nat)
    requires 26 <= version <= 29
    ensures Centres(version, ALIGNMENT_PATTERN_CENTERS[version - 1])
  {
    hide Centres, Positions;
    if version == 26 {
      RowFollows(26, 5, 28, ALIGNMENT_PATTERN_CENTERS[25]);
    } else if version == 27 {
      RowFollows(27, 5, 28, ALIGNMENT_PATTERN_CENTERS[26]);
    } else if version == 28 {
      RowFollows(28, 6, 24, ALIGNMENT_PATTERN_CENTERS[27]);
    } else if version == 29 {
      RowFollows(29, 6, 24, ALIGNMENT_PATTERN_CENTERS[28]);
    }
  }

  lemma RowsFollow7(version: nat)
    requires 30 <= version <= 33
    ensures Centres(version, ALIGNMENT_PATTERN_CENTERS[version - 1])
  {
    hide Centres, Positions;
    if version == 30 {
      RowFollows(30, 6, 26, ALIGNMENT_PATTERN_CENTERS[29]);
    } else if version == 31 {
      RowFollows(31, 6, 26, ALIGNMENT_PATTERN_CENTERS[30]);
    } else if version == 32 {
      RowFollows(32, 6, 26, ALIGNMENT_PATTERN_CENTERS[31]);
    } else if version == 33 {
      RowFollows(33, 6, 28, ALIGNMENT_PATTERN_CENTERS[32]);
    }
  }

  lemma RowsFollow8(version: nat)
    requires 34 <= version <= 37
    ensures Centres(version, ALIGNMENT_PATTERN_CENTERS[version - 1])
  {
    hide Centres, Positions;
    if version == 34 {
      RowFollows(34, 6, 28, ALIGNMENT_PATTERN_CENTERS[33]);
    } else if version == 35 {
      RowFollows(35, 7, 24, ALIGNMENT_PATTERN_CENTERS[34]);
    } else if version == 36 {
      RowFollows(36, 7, 26, ALIGNMENT_PATTERN_CENTERS[35]);
    } else if version == 37 {
      RowFollows(37, 7, 26, ALIGNMENT_PATTERN_CENTERS[36]);
    }
  }

  lemma RowsFollow9(version: nat)
    requires 38 <= version <= 40
    ensures Centres(version, ALIGNMENT_PATTERN_CENTERS[version - 1])
  {
    hide Centres, Positions;
    if version == 38 {
      RowFollows(38, 7, 26, ALIGNMENT_PATTERN_CENTERS[37]);
    } else if version == 39 {
      RowFollows(39, 7, 28, ALIGNMENT_PATTERN_CENTERS[38]);
    } else if version == 40 {
      RowFollows(40, 7, 28, ALIGNMENT_PATTERN_CENTERS[39]);
    }
  }

  lemma RowFollowsFormula(version: nat)
    requires 1 <= version <= 40 && version != 23
    ensures Centres(version, ALIGNMENT_PATTERN_CENTERS[version - 1])
  {
    hide Positions;
    if 2 <= version <= 5 {
      RowsFollow0(version);
    } else if 6 <= version <= 9 {
      RowsFollow1(version);
    } else if 10 <= version <= 13 {
      RowsFollow2(version);
    } else if 14 <= version <= 17 {
      RowsFollow3(version);
    } else if 18 <= version <= 21 {
      RowsFollow4(version);
    } else if 22 <= version <= 25 {
      RowsFollow5(version);
    } else if 26 <= version <= 29 {
      RowsFollow6(version);
    } else if 30 <= version <= 33 {
      RowsFollow7(version);
    } else if 34 <= version <= 37 {
      RowsFollow8(version);
    } else if 38 <= version <= 40 {
      RowsFollow9(version);
    }
  }

  lemma TwentyThird()
    ensures |ALIGNMENT_PATTERN_CENTERS| == 40 && ALIGNMENT_PATTERN_CENTERS[22] == [6, 30, 54, 74, 102]
  {}

  lemma TableIsCentres(version: nat)
    requires 1 <= version <= 40
    ensures |ALIGNMENT_PATTERN_CENTERS| == 40
    ensures AlignmentCentres(version * 4 + 17, ALIGNMENT_PATTERN_CENTERS[version - 1])
    ensures AlignmentCentres(17 + 4 * version, ALIGNMENT_PATTERN_CENTERS[version - 1])
  {
    hide Centres, ALIGNMENT_PATTERN_CENTERS;
    TwentyThird();
    if version != 23 {
      RowFollowsFormula(version);
      FormulaCentres(version, ALIGNMENT_PATTERN_CENTERS[version - 1]);
    }
  }

  /** With the decoder's list, the two sides agree about the function modules of every version but 23. */
  lemma MasksAgreeButOnce(version: nat, align: seq<nat>)
    requires 1 <= version <= 40 && Centres(version, align)
    ensures var size := version * 4 + 17;
            var decoder := DecoderRects(size, version, ALIGNMENT_PATTERN_CENTERS[version - 1]);
            Dark(size, EncoderRects(size, version, align)) == Dark(size, decoder) <==> version != 23
  {
    hide Dark, EncoderRects, DecoderRects, Positions, AlignmentCentres, Spaced, ALIGNMENT_PATTERN_CENTERS;
    if version == 23 {
      TwentyThird();
      VersionTwentyThreeDiffers(align, ALIGNMENT_PATTERN_CENTERS[22]);
    } else {
      RowFollowsFormula(version);
      FormulaCentres(version, align);
      PatternsAgree(version * 4 + 17, version, align);
    }
  }
}
