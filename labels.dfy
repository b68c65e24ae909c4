/** The labels that lines 79-104 of helper_functions.py build from one row of the
    behavioural log, and which of them the taxonomy knows. */
module Labels {
  import opened Dicts
  import opened Paths
  import opened Taxonomy

  /** The columns of one log row that the relabeller reads. */
  datatype Trial = Trial(
    primeGender: string,
    primeAge: string,
    targetGender: string,
    correct: int,
    response: string)

  /** `g in ["female", "male"]` */
  predicate IsBinary(g: string) {
    g == "female" || g == "male"
  }

  /** Lines 86 and 95. */
  function Congruency(t: Trial): string {
    if t.targetGender == t.primeGender then "congruent" else "incongruent"
  }

  /** Line 74. */
  function Correctness(t: Trial): string {
    if t.correct == 1 then "correct" else "incorrect"
  }

  /** The f-strings of lines 80-83. */
  function PrimeLabel(t: Trial): string {
    if t.primeGender == "filler" then "word/prime/" + t.primeGender
    else "word/prime/" + t.primeGender + "/" + t.primeAge
  }

  /** The f-strings of lines 88-92. */
  function TargetLabel(t: Trial): string {
    if IsBinary(t.primeGender) && IsBinary(t.targetGender) then
      "word/target/" + t.targetGender + "/" + Congruency(t)
    else
      "word/target/" + t.targetGender + "/" + t.primeGender
  }

  /** The f-strings of lines 97-104, with the control/neutral branch first, as written. */
  function ResponseLabel(t: Trial): string {
    if (t.targetGender == "control" || t.targetGender == "neutral") then
      "response/" + Correctness(t) + "/" + t.targetGender + "/" + t.primeGender + "/" + t.response
    else if IsBinary(t.primeGender) && IsBinary(t.targetGender) then
      "response/" + Correctness(t) + "/" + t.targetGender + "/" + Congruency(t) + "/" + t.response
    else
      "response/" + Correctness(t) + "/" + t.targetGender + "/" + t.primeGender + "/" + t.response
  }

  /** The segments of the prime label. */
  function PrimeSegments(t: Trial): seq<string> {
    if t.primeGender == "filler" then ["word", "prime", t.primeGender]
    else ["word", "prime", t.primeGender, t.primeAge]
  }

  /** The segments of the target label. */
  function TargetSegments(t: Trial): seq<string> {
    if IsBinary(t.primeGender) && IsBinary(t.targetGender) then
      ["word", "target", t.targetGender, Congruency(t)]
    else
      ["word", "target", t.targetGender, t.primeGender]
  }

  /** The segments of the response label. */
  function ResponseSegments(t: Trial): seq<string> {
    if (t.targetGender == "control" || t.targetGender == "neutral") then
      ["response", Correctness(t), t.targetGender, t.primeGender, t.response]
    else if IsBinary(t.primeGender) && IsBinary(t.targetGender) then
      ["response", Correctness(t), t.targetGender, Congruency(t), t.response]
    else
      ["response", Correctness(t), t.targetGender, t.primeGender, t.response]
  }

  /** Each f-string is the join of its segments with "/". */
  lemma PrimeLabelPath(t: Trial)
    ensures PrimeLabel(t) == Path(PrimeSegments(t))
  {
    if t.primeGender == "filler" {
      PathOfThree("word", "prime", t.primeGender);
    } else {
      PathOfFour("word", "prime", t.primeGender, t.primeAge);
    }
  }

  lemma TargetLabelPath(t: Trial)
    ensures TargetLabel(t) == Path(TargetSegments(t))
  {
    var s := TargetSegments(t);
    PathOfFour(s[0], s[1], s[2], s[3]);
  }

  lemma ResponseLabelPath(t: Trial)
    ensures ResponseLabel(t) == Path(ResponseSegments(t))
  {
    var c, g, r := Correctness(t), t.targetGender, t.response;
    assert "response/" == "response" + "/";
    if g == "control" || g == "neutral" {
      PathOfFive("response", c, g, t.primeGender, r);
    } else if IsBinary(t.primeGender) && IsBinary(g) {
      PathOfFive("response", c, g, Congruency(t), r);
    } else {
      PathOfFive("response", c, g, t.primeGender, r);
    }
  }

  /** The values the log's columns take in the experiment. */
  const PrimeGenders: set<string> := {"female", "male", "neutral", "filler"}
  const PrimeAges: set<string> := {"adult", "child", "neutral"}
  const TargetGenders: set<string> := {"female", "male", "neutral", "control"}
  const Responses: set<string> := {"m", "z"}

  /** A log row whose columns hold the experiment's values (any `correct`, and any
      prime age on a filler trial, whose label ignores it). */
  predicate Enumerated(t: Trial) {
    && t.primeGender in PrimeGenders
    && (t.primeGender != "filler" ==> t.primeAge in PrimeAges)
    && t.targetGender in TargetGenders
    && t.response in Responses
  }

  /** Every prime of the experiment has a label in the taxonomy. */
  lemma PrimeLabelFound(t: Trial)
    requires t.primeGender in PrimeGenders
    requires t.primeGender != "filler" ==> t.primeAge in PrimeAges
    ensures Get(EventId, PrimeLabel(t)).Some?
  {
    PrimeLabelPath(t);
    PrimeFound(t);
    InEventId(PrimeLabel(t));
  }

  lemma PrimeFound(t: Trial)
    requires t.primeGender in PrimeGenders
    requires t.primeGender != "filler" ==> t.primeAge in PrimeAges
    ensures Get(PrimeEntries, Path(PrimeSegments(t))).Some?
  {
    // j is the position of the label among the rows of lines 116-125.
    var j := 0;
    if t.primeGender == "female" && t.primeAge == "adult" {
      j := 0;
    } else if t.primeGender == "female" && t.primeAge == "child" {
      j := 1;
    } else if t.primeGender == "female" && t.primeAge == "neutral" {
      j := 2;
    } else if t.primeGender == "male" && t.primeAge == "adult" {
      j := 3;
    } else if t.primeGender == "male" && t.primeAge == "child" {
      j := 4;
    } else if t.primeGender == "male" && t.primeAge == "neutral" {
      j := 5;
    } else if t.primeGender == "neutral" && t.primeAge == "adult" {
      j := 6;
    } else if t.primeGender == "neutral" && t.primeAge == "child" {
      j := 7;
    } else if t.primeGender == "neutral" && t.primeAge == "neutral" {
      j := 8;
    } else if t.primeGender == "filler" {
      j := 9;
    }
    RowFound(PrimeRows, j, PrimeSegments(t));
  }

  /** Every target of the experiment has a label in the taxonomy. */
  lemma TargetLabelFound(t: Trial)
    requires t.primeGender in PrimeGenders && t.targetGender in TargetGenders
    ensures Get(EventId, TargetLabel(t)).Some?
  {
    TargetLabelPath(t);
    TargetFound(t);
    InEventId(TargetLabel(t));
  }

  lemma TargetFound(t: Trial)
    requires t.primeGender in PrimeGenders && t.targetGender in TargetGenders
    ensures Get(TargetEntries, Path(TargetSegments(t))).Some?
  {
    // j indexes the rows of lines 128-143: four per target gender (female 0-3, male 4-7,
    // neutral 8-11, control 12-15), each four in the order the source lists them.
    var j := 0;
    if t.primeGender == "female" && t.targetGender == "female" {
      j := 0;
    } else if t.primeGender == "female" && t.targetGender == "male" {
      j := 4;
    } else if t.primeGender == "female" && t.targetGender == "neutral" {
      j := 8;
    } else if t.primeGender == "female" && t.targetGender == "control" {
      j := 12;
    } else if t.primeGender == "male" && t.targetGender == "female" {
      j := 1;
    } else if t.primeGender == "male" && t.targetGender == "male" {
      j := 5;
    } else if t.primeGender == "male" && t.targetGender == "neutral" {
      j := 9;
    } else if t.primeGender == "male" && t.targetGender == "control" {
      j := 13;
    } else if t.primeGender == "neutral" && t.targetGender == "female" {
      j := 2;
    } else if t.primeGender == "neutral" && t.targetGender == "male" {
      j := 6;
    } else if t.primeGender == "neutral" && t.targetGender == "neutral" {
      j := 10;
    } else if t.primeGender == "neutral" && t.targetGender == "control" {
      j := 14;
    } else if t.primeGender == "filler" && t.targetGender == "female" {
      j := 3;
    } else if t.primeGender == "filler" && t.targetGender == "male" {
      j := 7;
    } else if t.primeGender == "filler" && t.targetGender == "neutral" {
      j := 11;
    } else if t.primeGender == "filler" && t.targetGender == "control" {
      j := 15;
    }
    RowFound(TargetRows, j, TargetSegments(t));
  }

  /** Every response of the experiment has a label in the taxonomy. */
  lemma ResponseLabelFound(t: Trial)
    requires t.primeGender in PrimeGenders && t.targetGender in TargetGenders
    requires t.response in Responses
    ensures Get(EventId, ResponseLabel(t)).Some?
  {
    ResponseLabelPath(t);
    ResponseFound(t);
  }

  lemma ResponseFound(t: Trial)
    requires t.primeGender in PrimeGenders && t.targetGender in TargetGenders
    requires t.response in Responses
    ensures Get(EventId, Path(ResponseSegments(t))).Some?
  {
    if t.correct == 1 && (t.targetGender == "female" || t.targetGender == "male") {
      CorrectBinaryFound(t);
    } else if t.correct == 1 && (t.targetGender == "neutral" || t.targetGender == "control") {
      CorrectOtherFound(t);
    } else if t.correct != 1 && (t.targetGender == "female" || t.targetGender == "male") {
      IncorrectBinaryFound(t);
    } else if t.correct != 1 && (t.targetGender == "neutral" || t.targetGender == "control") {
      IncorrectOtherFound(t);
    }
  }

  lemma CorrectBinaryFound(t: Trial)
    requires t.correct == 1 && (t.targetGender == "female" || t.targetGender == "male")
    requires t.primeGender in PrimeGenders && t.response in Responses
    ensures Get(EventId, Path(ResponseSegments(t))).Some?
  {
    // j indexes the block's sixteen rows: eight per target gender (female 0-7, male 8-15),
    // two per fourth segment in the source's order, "m" before "z".
    var j := 0;
    if t.primeGender == "female" && t.targetGender == "female" && t.response == "m" {
      j := 0;
    } else if t.primeGender == "female" && t.targetGender == "female" && t.response == "z" {
      j := 1;
    } else if t.primeGender == "female" && t.targetGender == "male" && t.response == "m" {
      j := 8;
    } else if t.primeGender == "female" && t.targetGender == "male" && t.response == "z" {
      j := 9;
    } else if t.primeGender == "male" && t.targetGender == "female" && t.response == "m" {
      j := 2;
    } else if t.primeGender == "male" && t.targetGender == "female" && t.response == "z" {
      j := 3;
    } else if t.primeGender == "male" && t.targetGender == "male" && t.response == "m" {
      j := 10;
    } else if t.primeGender == "male" && t.targetGender == "male" && t.response == "z" {
      j := 11;
    } else if t.primeGender == "neutral" && t.targetGender == "female" && t.response == "m" {
      j := 4;
    } else if t.primeGender == "neutral" && t.targetGender == "female" && t.response == "z" {
      j := 5;
    } else if t.primeGender == "neutral" && t.targetGender == "male" && t.response == "m" {
      j := 12;
    } else if t.primeGender == "neutral" && t.targetGender == "male" && t.response == "z" {
      j := 13;
    } else if t.primeGender == "filler" && t.targetGender == "female" && t.response == "m" {
      j := 6;
    } else if t.primeGender == "filler" && t.targetGender == "female" && t.response == "z" {
      j := 7;
    } else if t.primeGender == "filler" && t.targetGender == "male" && t.response == "m" {
      j := 14;
    } else if t.primeGender == "filler" && t.targetGender == "male" && t.response == "z" {
      j := 15;
    }
    RowFound(CorrectBinaryRows, j, ResponseSegments(t));
    InEventId(Path(ResponseSegments(t)));
  }

  lemma CorrectOtherFound(t: Trial)
    requires t.correct == 1 && (t.targetGender == "neutral" || t.targetGender == "control")
    requires t.primeGender in PrimeGenders && t.response in Responses
    ensures Get(EventId, Path(ResponseSegments(t))).Some?
  {
    // j indexes the block's sixteen rows: eight per target gender (neutral 0-7, control
    // 8-15), two per prime gender (female, male, neutral, filler), "m" before "z".
    var j := 0;
    if t.primeGender == "female" && t.targetGender == "neutral" && t.response == "m" {
      j := 0;
    } else if t.primeGender == "female" && t.targetGender == "neutral" && t.response == "z" {
      j := 1;
    } else if t.primeGender == "female" && t.targetGender == "control" && t.response == "m" {
      j := 8;
    } else if t.primeGender == "female" && t.targetGender == "control" && t.response == "z" {
      j := 9;
    } else if t.primeGender == "male" && t.targetGender == "neutral" && t.response == "m" {
      j := 2;
    } else if t.primeGender == "male" && t.targetGender == "neutral" && t.response == "z" {
      j := 3;
    } else if t.primeGender == "male" && t.targetGender == "control" && t.response == "m" {
      j := 10;
    } else if t.primeGender == "male" && t.targetGender == "control" && t.response == "z" {
      j := 11;
    } else if t.primeGender == "neutral" && t.targetGender == "neutral" && t.response == "m" {
      j := 4;
    } else if t.primeGender == "neutral" && t.targetGender == "neutral" && t.response == "z" {
      j := 5;
    } else if t.primeGender == "neutral" && t.targetGender == "control" && t.response == "m" {
      j := 12;
    } else if t.primeGender == "neutral" && t.targetGender == "control" && t.response == "z" {
      j := 13;
    } else if t.primeGender == "filler" && t.targetGender == "neutral" && t.response == "m" {
      j := 6;
    } else if t.primeGender == "filler" && t.targetGender == "neutral" && t.response == "z" {
      j := 7;
    } else if t.primeGender == "filler" && t.targetGender == "control" && t.response == "m" {
      j := 14;
    } else if t.primeGender == "filler" && t.targetGender == "control" && t.response == "z" {
      j := 15;
    }
    RowFound(CorrectOtherRows, j, ResponseSegments(t));
    InEventId(Path(ResponseSegments(t)));
  }

  lemma IncorrectBinaryFound(t: Trial)
    requires t.correct != 1 && (t.targetGender == "female" || t.targetGender == "male")
    requires t.primeGender in PrimeGenders && t.response in Responses
    ensures Get(EventId, Path(ResponseSegments(t))).Some?
  {
    // j indexes the block's sixteen rows: eight per target gender (female 0-7, male 8-15),
    // two per fourth segment in the source's order, "m" before "z".
    var j := 0;
    if t.primeGender == "female" && t.targetGender == "female" && t.response == "m" {
      j := 0;
    } else if t.primeGender == "female" && t.targetGender == "female" && t.response == "z" {
      j := 1;
    } else if t.primeGender == "female" && t.targetGender == "male" && t.response == "m" {
      j := 8;
    } else if t.primeGender == "female" && t.targetGender == "male" && t.response == "z" {
      j := 9;
    } else if t.primeGender == "male" && t.targetGender == "female" && t.response == "m" {
      j := 2;
    } else if t.primeGender == "male" && t.targetGender == "female" && t.response == "z" {
      j := 3;
    } else if t.primeGender == "male" && t.targetGender == "male" && t.response == "m" {
      j := 10;
    } else if t.primeGender == "male" && t.targetGender == "male" && t.response == "z" {
      j := 11;
    } else if t.primeGender == "neutral" && t.targetGender == "female" && t.response == "m" {
      j := 4;
    } else if t.primeGender == "neutral" && t.targetGender == "female" && t.response == "z" {
      j := 5;
    } else if t.primeGender == "neutral" && t.targetGender == "male" && t.response == "m" {
      j := 12;
    } else if t.primeGender == "neutral" && t.targetGender == "male" && t.response == "z" {
      j := 13;
    } else if t.primeGender == "filler" && t.targetGender == "female" && t.response == "m" {
      j := 6;
    } else if t.primeGender == "filler" && t.targetGender == "female" && t.response == "z" {
      j := 7;
    } else if t.primeGender == "filler" && t.targetGender == "male" && t.response == "m" {
      j := 14;
    } else if t.primeGender == "filler" && t.targetGender == "male" && t.response == "z" {
      j := 15;
    }
    RowFound(IncorrectBinaryRows, j, ResponseSegments(t));
    InEventId(Path(ResponseSegments(t)));
  }

  lemma IncorrectOtherFound(t: Trial)
    requires t.correct != 1 && (t.targetGender == "neutral" || t.targetGender == "control")
    requires t.primeGender in PrimeGenders && t.response in Responses
    ensures Get(EventId, Path(ResponseSegments(t))).Some?
  {
    // j indexes the block's sixteen rows: eight per target gender (neutral 0-7, control
    // 8-15), two per prime gender (female, male, neutral, filler), "m" before "z".
    var j := 0;
    if t.primeGender == "female" && t.targetGender == "neutral" && t.response == "m" {
      j := 0;
    } else if t.primeGender == "female" && t.targetGender == "neutral" && t.response == "z" {
      j := 1;
    } else if t.primeGender == "female" && t.targetGender == "control" && t.response == "m" {
      j := 8;
    } else if t.primeGender == "female" && t.targetGender == "control" && t.response == "z" {
      j := 9;
    } else if t.primeGender == "male" && t.targetGender == "neutral" && t.response == "m" {
      j := 2;
    } else if t.primeGender == "male" && t.targetGender == "neutral" && t.response == "z" {
      j := 3;
    } else if t.primeGender == "male" && t.targetGender == "control" && t.response == "m" {
      j := 10;
    } else if t.primeGender == "male" && t.targetGender == "control" && t.response == "z" {
      j := 11;
    } else if t.primeGender == "neutral" && t.targetGender == "neutral" && t.response == "m" {
      j := 4;
    } else if t.primeGender == "neutral" && t.targetGender == "neutral" && t.response == "z" {
      j := 5;
    } else if t.primeGender == "neutral" && t.targetGender == "control" && t.response == "m" {
      j := 12;
    } else if t.primeGender == "neutral" && t.targetGender == "control" && t.response == "z" {
      j := 13;
    } else if t.primeGender == "filler" && t.targetGender == "neutral" && t.response == "m" {
      j := 6;
    } else if t.primeGender == "filler" && t.targetGender == "neutral" && t.response == "z" {
      j := 7;
    } else if t.primeGender == "filler" && t.targetGender == "control" && t.response == "m" {
      j := 14;
    } else if t.primeGender == "filler" && t.targetGender == "control" && t.response == "z" {
      j := 15;
    }
    RowFound(IncorrectOtherRows, j, ResponseSegments(t));
    InEventId(Path(ResponseSegments(t)));
  }

  /** Every label that a row of the experiment yields is in the taxonomy, so for such
      rows the lookups of lines 81, 83, 89, 92, 98, 101 and 104 never raise. */
  lemma LabelsFound(t: Trial)
    requires Enumerated(t)
    ensures Get(EventId, PrimeLabel(t)).Some?
    ensures Get(EventId, TargetLabel(t)).Some?
    ensures Get(EventId, ResponseLabel(t)).Some?
  {
    PrimeLabelFound(t);
    TargetLabelFound(t);
    ResponseLabelFound(t);
  }

  /** Conversely, a prime label that the taxonomy holds comes from a prime gender of the
      experiment, and from one of its ages unless the prime is a filler, whatever strings
      the log holds: any other value makes line 81 or 83 raise a KeyError. */
  lemma PrimeLabelKnown(t: Trial)
    requires Get(EventId, PrimeLabel(t)).Some?
    ensures t.primeGender in PrimeGenders
    ensures t.primeGender != "filler" ==> t.primeAge in PrimeAges
  {
    if t.primeGender != "filler" {
      PrimeLabelPath(t);
      FoundPieces(PrimeSegments(t));
      PrimePieces(PrimeSegments(t));
    }
  }

  /** A target label that the taxonomy holds comes from a target gender of the
      experiment, whatever strings the log holds. */
  lemma TargetLabelKnown(t: Trial)
    requires Get(EventId, TargetLabel(t)).Some?
    ensures t.targetGender in TargetGenders
  {
    TargetLabelPath(t);
    FoundPieces(TargetSegments(t));
    TargetPieces(TargetSegments(t));
  }

  /** A response label that the taxonomy holds comes from a target gender and a response
      key of the experiment, whatever strings the log holds. */
  lemma ResponseLabelKnown(t: Trial)
    requires Get(EventId, ResponseLabel(t)).Some?
    ensures t.targetGender in TargetGenders && t.response in Responses
  {
    ResponseLabelPath(t);
    FoundPieces(ResponseSegments(t));
    ResponsePieces(ResponseSegments(t));
  }

  /** The three lookups of one log row all succeed exactly when the row holds the
      experiment's values. */
  lemma LabelsFoundExactly(t: Trial)
    ensures Enumerated(t)
            <==> && Get(EventId, PrimeLabel(t)).Some?
                 && Get(EventId, TargetLabel(t)).Some?
                 && Get(EventId, ResponseLabel(t)).Some?
  {
    if Enumerated(t) {
      LabelsFound(t);
    }
    if Get(EventId, PrimeLabel(t)).Some? && Get(EventId, TargetLabel(t)).Some?
       && Get(EventId, ResponseLabel(t)).Some? {
      PrimeLabelKnown(t);
      TargetLabelKnown(t);
      ResponseLabelKnown(t);
    }
  }

  /** A target gender of "filler" builds a target label the taxonomy lacks, so line 92
      raises a KeyError, whatever the prime gender. */
  lemma FillerTargetMissing(t: Trial)
    requires t.targetGender == "filler"
    ensures Get(EventId, TargetLabel(t)) == None
  {
    assert "filler" !in TargetGenders;
    if Get(EventId, TargetLabel(t)).Some? {
      TargetLabelKnown(t);
      assert false;
    }
  }

  /** Likewise the response label of line 104 for a "filler" target. */
  lemma FillerResponseMissing(t: Trial)
    requires t.targetGender == "filler"
    ensures Get(EventId, ResponseLabel(t)) == None
  {
    assert "filler" !in TargetGenders;
    if Get(EventId, ResponseLabel(t)).Some? {
      ResponseLabelKnown(t);
      assert false;
    }
  }

  /** The control/neutral branch of lines 97-98 and the final else of line 104 build the
      same label, so the response label has only two shapes. */
  lemma ResponseLabelTwoShapes(t: Trial)
    ensures ResponseLabel(t)
            == if IsBinary(t.primeGender) && IsBinary(t.targetGender) then
                 "response/" + Correctness(t) + "/" + t.targetGender + "/" + Congruency(t) + "/" + t.response
               else
                 "response/" + Correctness(t) + "/" + t.targetGender + "/" + t.primeGender + "/" + t.response
  {
  }

  /** A filler prime gets the filler label, whatever its age column holds. */
  lemma FillerPrimeIgnoresAge(t: Trial, age: string)
    requires t.primeGender == "filler"
    ensures PrimeLabel(t) == PrimeLabel(t.(primeAge := age)) == "word/prime/filler"
  {
  }

  /** The filler prime label has code 40. */
  lemma FillerPrimeCode(t: Trial)
    requires t.primeGender == "filler"
    ensures Get(EventId, PrimeLabel(t)) == Some(40)
  {
    PrimeLabelPath(t);
    EventIdKeysDistinct();
    assert EventId[9] == PrimeEntries[9] == Entry(Path(PrimeSegments(t)), 40);
    GetItem(EventId, 9);
  }
}
