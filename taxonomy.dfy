/** The label taxonomy `event_id` of helper_functions.py: every condition label with
    its trigger code, item by item in the order of the dict literal. Each key is written
    as the segments of its slash-separated path, so `Row(["word", "prime", "female",
    "adult"], 11)` is the item "word/prime/female/adult": 11. The literal is written as
    six consecutive blocks: the primes, the targets, and the responses of lines 145-209
    in four blocks of sixteen (incorrect or correct, to a female or male target or to a
    neutral or control target). The source has one response group; it is split only so
    that every fact about the literal is checked on at most sixteen rows at a time, which
    keeps those proofs cheap. The facts are then carried over block by block to the dict. */
module Taxonomy {
  import opened Dicts
  import opened Paths

  /** One item of the dict literal, its key given by its path segments. */
  datatype Row = Row(path: seq<string>, code: int)

  /** The dict items that the rows spell: each key is the join of its segments. */
  function Entries(rows: seq<Row>): Dict {
    seq(|rows|, i requires 0 <= i < |rows| => Entry(Path(rows[i].path), rows[i].code))
  }

  /** No two rows have the same segments. */
  ghost predicate PathsDistinct(rows: seq<Row>) {
    forall i, j :: 0 <= i < j < |rows| ==> rows[i].path != rows[j].path
  }

  /** Every row has at least one segment and no segment holds a slash. */
  ghost predicate PathsWellFormed(rows: seq<Row>) {
    forall i :: 0 <= i < |rows| ==> |rows[i].path| > 0 && SlashFree(rows[i].path)
  }

  /** Segment `k` of every row is one of `segs`. */
  ghost predicate PathsMarked(rows: seq<Row>, k: nat, segs: set<string>) {
    forall i :: 0 <= i < |rows| ==> k < |rows[i].path| && rows[i].path[k] in segs
  }

  ghost predicate RowCodesDistinct(rows: seq<Row>) {
    forall i, j :: 0 <= i < j < |rows| ==> rows[i].code != rows[j].code
  }

  ghost predicate RowCodesApart(a: seq<Row>, b: seq<Row>) {
    forall i, j :: 0 <= i < |a| && 0 <= j < |b| ==> a[i].code != b[j].code
  }

  ghost predicate RowCodesWithin(rows: seq<Row>, lo: int, hi: int) {
    forall i :: 0 <= i < |rows| ==> lo <= rows[i].code <= hi
  }

  ghost predicate RowCodesAvoid(rows: seq<Row>, s: set<int>) {
    forall i :: 0 <= i < |rows| ==> rows[i].code !in s
  }

  /** Distinct well-formed paths join to distinct keys. */
  lemma EntriesKeysDistinct(rows: seq<Row>)
    requires PathsDistinct(rows) && PathsWellFormed(rows)
    ensures KeysDistinct(Entries(rows))
  {
    var d := Entries(rows);
    forall i, j | 0 <= i < j < |d| ensures d[i].key != d[j].key {
      if d[i].key == d[j].key {
        PathInjective(rows[i].path, rows[j].path);
      }
    }
  }

  /** Rows that differ in segment `k` join to keys that differ. */
  lemma EntriesApart(a: seq<Row>, b: seq<Row>, k: nat, sa: set<string>, sb: set<string>)
    requires PathsWellFormed(a) && PathsWellFormed(b)
    requires PathsMarked(a, k, sa) && PathsMarked(b, k, sb) && sa !! sb
    ensures LabelsDisjoint(Entries(a), Entries(b))
  {
    var da, db := Entries(a), Entries(b);
    forall i, j | 0 <= i < |da| && 0 <= j < |db| ensures da[i].key != db[j].key {
      if da[i].key == db[j].key {
        PathInjective(a[i].path, b[j].path);
      }
    }
  }

  lemma EntriesCodesDistinct(rows: seq<Row>)
    requires RowCodesDistinct(rows)
    ensures CodesDistinct(Entries(rows))
  {
  }

  lemma EntriesCodesDisjoint(a: seq<Row>, b: seq<Row>)
    requires RowCodesApart(a, b)
    ensures CodesDisjoint(Entries(a), Entries(b))
  {
  }

  lemma EntriesCodesWithin(rows: seq<Row>, lo: int, hi: int)
    requires RowCodesWithin(rows, lo, hi)
    ensures CodesWithin(Entries(rows), lo, hi)
  {
  }

  lemma EntriesCodesAvoid(rows: seq<Row>, s: set<int>)
    requires RowCodesAvoid(rows, s)
    ensures CodesAvoid(Entries(rows), s)
  {
  }

  /** Prime words: word/prime/<prime_gender>/<prime_age>, and the filler prime. */
  const PrimeRows: seq<Row> := [
    Row(["word", "prime", "female", "adult"], 11),
    Row(["word", "prime", "female", "child"], 12),
    Row(["word", "prime", "female", "neutral"], 13),
    Row(["word", "prime", "male", "adult"], 21),
    Row(["word", "prime", "male", "child"], 22),
    Row(["word", "prime", "male", "neutral"], 23),
    Row(["word", "prime", "neutral", "adult"], 31),
    Row(["word", "prime", "neutral", "child"], 32),
    Row(["word", "prime", "neutral", "neutral"], 33),
    Row(["word", "prime", "filler"], 40)
  ]
  const PrimeEntries: Dict := Entries(PrimeRows)

  /** Target words: word/target/<target_gender>/<congruency or prime_gender>. */
  const TargetRows: seq<Row> := [
    Row(["word", "target", "female", "congruent"], 111),
    Row(["word", "target", "female", "incongruent"], 121),
    Row(["word", "target", "female", "neutral"], 131),
    Row(["word", "target", "female", "filler"], 141),
    Row(["word", "target", "male", "incongruent"], 112),
    Row(["word", "target", "male", "congruent"], 122),
    Row(["word", "target", "male", "neutral"], 132),
    Row(["word", "target", "male", "filler"], 142),
    Row(["word", "target", "neutral", "female"], 113),
    Row(["word", "target", "neutral", "male"], 123),
    Row(["word", "target", "neutral", "neutral"], 133),
    Row(["word", "target", "neutral", "filler"], 143),
    Row(["word", "target", "control", "female"], 114),
    Row(["word", "target", "control", "male"], 124),
    Row(["word", "target", "control", "neutral"], 134),
    Row(["word", "target", "control", "filler"], 144)
  ]
  const TargetEntries: Dict := Entries(TargetRows)

  /** Incorrect responses to female and male targets. */
  const IncorrectBinaryRows: seq<Row> := [
    Row(["response", "incorrect", "female", "congruent", "m"], 161),
    Row(["response", "incorrect", "female", "congruent", "z"], 166),
    Row(["response", "incorrect", "female", "incongruent", "m"], 171),
    Row(["response", "incorrect", "female", "incongruent", "z"], 176),
    Row(["response", "incorrect", "female", "neutral", "m"], 181),
    Row(["response", "incorrect", "female", "neutral", "z"], 186),
    Row(["response", "incorrect", "female", "filler", "m"], 191),
    Row(["response", "incorrect", "female", "filler", "z"], 196),
    Row(["response", "incorrect", "male", "incongruent", "m"], 162),
    Row(["response", "incorrect", "male", "incongruent", "z"], 167),
    Row(["response", "incorrect", "male", "congruent", "m"], 172),
    Row(["response", "incorrect", "male", "congruent", "z"], 177),
    Row(["response", "incorrect", "male", "neutral", "m"], 182),
    Row(["response", "incorrect", "male", "neutral", "z"], 187),
    Row(["response", "incorrect", "male", "filler", "m"], 192),
    Row(["response", "incorrect", "male", "filler", "z"], 197)
  ]
  const IncorrectBinaryEntries: Dict := Entries(IncorrectBinaryRows)

  /** Incorrect responses to neutral and control targets. */
  const IncorrectOtherRows: seq<Row> := [
    Row(["response", "incorrect", "neutral", "female", "m"], 163),
    Row(["response", "incorrect", "neutral", "female", "z"], 168),
    Row(["response", "incorrect", "neutral", "male", "m"], 173),
    Row(["response", "incorrect", "neutral", "male", "z"], 178),
    Row(["response", "incorrect", "neutral", "neutral", "m"], 183),
    Row(["response", "incorrect", "neutral", "neutral", "z"], 188),
    Row(["response", "incorrect", "neutral", "filler", "m"], 193),
    Row(["response", "incorrect", "neutral", "filler", "z"], 198),
    Row(["response", "incorrect", "control", "female", "m"], 164),
    Row(["response", "incorrect", "control", "female", "z"], 169),
    Row(["response", "incorrect", "control", "male", "m"], 174),
    Row(["response", "incorrect", "control", "male", "z"], 179),
    Row(["response", "incorrect", "control", "neutral", "m"], 184),
    Row(["response", "incorrect", "control", "neutral", "z"], 189),
    Row(["response", "incorrect", "control", "filler", "m"], 194),
    Row(["response", "incorrect", "control", "filler", "z"], 199)
  ]
  const IncorrectOtherEntries: Dict := Entries(IncorrectOtherRows)

  /** Correct responses to female and male targets. */
  const CorrectBinaryRows: seq<Row> := [
    Row(["response", "correct", "female", "congruent", "m"], 211),
    Row(["response", "correct", "female", "congruent", "z"], 216),
    Row(["response", "correct", "female", "incongruent", "m"], 221),
    Row(["response", "correct", "female", "incongruent", "z"], 226),
    Row(["response", "correct", "female", "neutral", "m"], 231),
    Row(["response", "correct", "female", "neutral", "z"], 236),
    Row(["response", "correct", "female", "filler", "m"], 241),
    Row(["response", "correct", "female", "filler", "z"], 246),
    Row(["response", "correct", "male", "incongruent", "m"], 212),
    Row(["response", "correct", "male", "incongruent", "z"], 217),
    Row(["response", "correct", "male", "congruent", "m"], 222),
    Row(["response", "correct", "male", "congruent", "z"], 227),
    Row(["response", "correct", "male", "neutral", "m"], 232),
    Row(["response", "correct", "male", "neutral", "z"], 237),
    Row(["response", "correct", "male", "filler", "m"], 242),
    Row(["response", "correct", "male", "filler", "z"], 247)
  ]
  const CorrectBinaryEntries: Dict := Entries(CorrectBinaryRows)

  /** Correct responses to neutral and control targets. */
  const CorrectOtherRows: seq<Row> := [
    Row(["response", "correct", "neutral", "female", "m"], 213),
    Row(["response", "correct", "neutral", "female", "z"], 218),
    Row(["response", "correct", "neutral", "male", "m"], 223),
    Row(["response", "correct", "neutral", "male", "z"], 228),
    Row(["response", "correct", "neutral", "neutral", "m"], 233),
    Row(["response", "correct", "neutral", "neutral", "z"], 238),
    Row(["response", "correct", "neutral", "filler", "m"], 243),
    Row(["response", "correct", "neutral", "filler", "z"], 248),
    Row(["response", "correct", "control", "female", "m"], 214),
    Row(["response", "correct", "control", "female", "z"], 219),
    Row(["response", "correct", "control", "male", "m"], 224),
    Row(["response", "correct", "control", "male", "z"], 229),
    Row(["response", "correct", "control", "neutral", "m"], 234),
    Row(["response", "correct", "control", "neutral", "z"], 239),
    Row(["response", "correct", "control", "filler", "m"], 244),
    Row(["response", "correct", "control", "filler", "z"], 249)
  ]
  const CorrectOtherEntries: Dict := Entries(CorrectOtherRows)

  const WordEntries: Dict := PrimeEntries + TargetEntries
  const IncorrectEntries: Dict := IncorrectBinaryEntries + IncorrectOtherEntries
  const CorrectEntries: Dict := CorrectBinaryEntries + CorrectOtherEntries

  /** The whole `event_id` dict literal: 90 items, in source order. */
  const EventId: Dict := WordEntries + IncorrectEntries + CorrectEntries

  /** The raw trigger codes of prime words, target words and responses. */
  const RawCodes: set<int> := {10, 20, 30}

  /** `event_id` is a well-formed dict: no label occurs twice. */
  lemma EventIdKeysDistinct()
    ensures KeysDistinct(EventId)
  {
    WordKeysDistinct();
    IncorrectKeysDistinct();
    CorrectKeysDistinct();
    WordsApartFromResponses();
    IncorrectApartFromCorrect();
    KeysDistinctAppend(WordEntries, IncorrectEntries);
    LabelsDisjointAppend(WordEntries, IncorrectEntries, CorrectEntries);
    KeysDistinctAppend(WordEntries + IncorrectEntries, CorrectEntries);
  }

  lemma WordKeysDistinct()
    ensures KeysDistinct(WordEntries)
  {
    PrimeKeysDistinct();
    TargetKeysDistinct();
    PrimeTargetApart();
    KeysDistinctAppend(PrimeEntries, TargetEntries);
  }

  lemma IncorrectKeysDistinct()
    ensures KeysDistinct(IncorrectEntries)
  {
    IncorrectBinaryKeysDistinct();
    IncorrectOtherKeysDistinct();
    IncorrectBinaryIncorrectOtherApart();
    KeysDistinctAppend(IncorrectBinaryEntries, IncorrectOtherEntries);
  }

  lemma CorrectKeysDistinct()
    ensures KeysDistinct(CorrectEntries)
  {
    CorrectBinaryKeysDistinct();
    CorrectOtherKeysDistinct();
    CorrectBinaryCorrectOtherApart();
    KeysDistinctAppend(CorrectBinaryEntries, CorrectOtherEntries);
  }

  lemma WordsApartFromResponses()
    ensures LabelsDisjoint(WordEntries, IncorrectEntries)
    ensures LabelsDisjoint(WordEntries, CorrectEntries)
  {
    PrimeIncorrectBinaryApart();
    PrimeIncorrectOtherApart();
    TargetIncorrectBinaryApart();
    TargetIncorrectOtherApart();
    PrimeCorrectBinaryApart();
    PrimeCorrectOtherApart();
    TargetCorrectBinaryApart();
    TargetCorrectOtherApart();
    LabelsDisjointAppendRight(PrimeEntries, IncorrectBinaryEntries, IncorrectOtherEntries);
    LabelsDisjointAppendRight(TargetEntries, IncorrectBinaryEntries, IncorrectOtherEntries);
    LabelsDisjointAppend(PrimeEntries, TargetEntries, IncorrectEntries);
    LabelsDisjointAppendRight(PrimeEntries, CorrectBinaryEntries, CorrectOtherEntries);
    LabelsDisjointAppendRight(TargetEntries, CorrectBinaryEntries, CorrectOtherEntries);
    LabelsDisjointAppend(PrimeEntries, TargetEntries, CorrectEntries);
  }

  lemma IncorrectApartFromCorrect()
    ensures LabelsDisjoint(IncorrectEntries, CorrectEntries)
  {
    IncorrectBinaryCorrectBinaryApart();
    IncorrectBinaryCorrectOtherApart();
    IncorrectOtherCorrectBinaryApart();
    IncorrectOtherCorrectOtherApart();
    LabelsDisjointAppendRight(IncorrectBinaryEntries, CorrectBinaryEntries, CorrectOtherEntries);
    LabelsDisjointAppendRight(IncorrectOtherEntries, CorrectBinaryEntries, CorrectOtherEntries);
    LabelsDisjointAppend(IncorrectBinaryEntries, IncorrectOtherEntries, CorrectEntries);
  }

  /** No two labels of `event_id` share a trigger code. */
  lemma EventIdCodesDistinct()
    ensures CodesDistinct(EventId)
  {
    PrimeCodesDistinct();
    TargetCodesDistinct();
    IncorrectBinaryCodesDistinct();
    IncorrectOtherCodesDistinct();
    CorrectBinaryCodesDistinct();
    CorrectOtherCodesDistinct();
    FamiliesWithin();
    RangesSeparate(PrimeEntries, TargetEntries, 11, 110, 144);
    CodesDistinctAppend(PrimeEntries, TargetEntries);
    ResponseCodesDisjoint();
    CodesDistinctAppend(IncorrectBinaryEntries, IncorrectOtherEntries);
    CodesDistinctAppend(CorrectBinaryEntries, CorrectOtherEntries);
    RangesSeparate(WordEntries, IncorrectEntries, 11, 160, 199);
    CodesDistinctAppend(WordEntries, IncorrectEntries);
    CodesWithinAppend(WordEntries, IncorrectEntries, 11, 199);
    RangesSeparate(WordEntries + IncorrectEntries, CorrectEntries, 11, 210, 249);
    CodesDistinctAppend(WordEntries + IncorrectEntries, CorrectEntries);
  }

  /** No code of `event_id` is one of the raw codes 10, 20 and 30. */
  lemma EventIdAvoidsRawCodes()
    ensures CodesAvoid(EventId, RawCodes)
  {
    PrimeAvoidsRawCodes();
    FamiliesWithin();
    CodesAvoidAppend(PrimeEntries, TargetEntries, RawCodes);
    CodesAvoidAppend(WordEntries, IncorrectEntries, RawCodes);
    CodesAvoidAppend(WordEntries + IncorrectEntries, CorrectEntries, RawCodes);
  }

  lemma PrimeAvoidsRawCodes()
    ensures CodesAvoid(PrimeEntries, RawCodes)
  {
    PrimeRowsAvoidRawCodes();
    EntriesCodesAvoid(PrimeRows, RawCodes);
  }

  /** Each family of codes in its own range. */
  lemma FamiliesWithin()
    ensures CodesWithin(PrimeEntries, 11, 110) && CodesWithin(TargetEntries, 111, 144)
    ensures CodesWithin(WordEntries, 11, 160)
    ensures CodesWithin(IncorrectEntries, 161, 199)
    ensures CodesWithin(CorrectEntries, 211, 249)
  {
    PrimeRange();
    TargetRange();
    IncorrectBinaryRange();
    IncorrectOtherRange();
    CorrectBinaryRange();
    CorrectOtherRange();
    CodesWithinWiden(PrimeEntries, 11, 40, 11, 110);
    CodesWithinWiden(PrimeEntries, 11, 40, 11, 160);
    CodesWithinWiden(TargetEntries, 111, 144, 11, 160);
    CodesWithinAppend(PrimeEntries, TargetEntries, 11, 160);
    CodesWithinWiden(IncorrectBinaryEntries, 161, 197, 161, 199);
    CodesWithinWiden(IncorrectOtherEntries, 163, 199, 161, 199);
    CodesWithinAppend(IncorrectBinaryEntries, IncorrectOtherEntries, 161, 199);
    CodesWithinWiden(CorrectBinaryEntries, 211, 247, 211, 249);
    CodesWithinWiden(CorrectOtherEntries, 213, 249, 211, 249);
    CodesWithinAppend(CorrectBinaryEntries, CorrectOtherEntries, 211, 249);
  }

  lemma ResponseCodesDisjoint()
    ensures CodesDisjoint(IncorrectBinaryEntries, IncorrectOtherEntries)
    ensures CodesDisjoint(CorrectBinaryEntries, CorrectOtherEntries)
  {
    IncorrectCodesDisjoint();
    CorrectCodesDisjoint();
  }

  lemma IncorrectCodesDisjoint()
    ensures CodesDisjoint(IncorrectBinaryEntries, IncorrectOtherEntries)
  {
    IncorrectRowCodesApart();
    EntriesCodesDisjoint(IncorrectBinaryRows, IncorrectOtherRows);
  }

  lemma CorrectCodesDisjoint()
    ensures CodesDisjoint(CorrectBinaryEntries, CorrectOtherEntries)
  {
    CorrectRowCodesApart();
    EntriesCodesDisjoint(CorrectBinaryRows, CorrectOtherRows);
  }

  /** A row of a block is found by the join of its segments. */
  lemma RowFound(rows: seq<Row>, j: int, segs: seq<string>)
    requires 0 <= j < |rows| && rows[j].path == segs
    ensures Get(Entries(rows), Path(segs)).Some?
  {
    assert Entries(rows)[j].key == Path(segs);
  }

  /** A label is in `event_id` exactly when it is in one of the six blocks. */
  lemma {:induction false} InEventId(key: string)
    ensures Get(EventId, key).Some?
            <==> || Get(PrimeEntries, key).Some? || Get(TargetEntries, key).Some?
                 || Get(IncorrectBinaryEntries, key).Some? || Get(IncorrectOtherEntries, key).Some?
                 || Get(CorrectBinaryEntries, key).Some? || Get(CorrectOtherEntries, key).Some?
  {
    GetAppend(WordEntries + IncorrectEntries, CorrectEntries, key);
    GetAppend(WordEntries, IncorrectEntries, key);
    GetAppend(PrimeEntries, TargetEntries, key);
    GetAppend(IncorrectBinaryEntries, IncorrectOtherEntries, key);
    GetAppend(CorrectBinaryEntries, CorrectOtherEntries, key);
  }

  /** The four shapes of the keys of `event_id`, as the pieces of the key between its
      slashes: the filler prime; a prime of a gender and an age; a target of one of the
      four target genders; a response to one of those with key "m" or "z". */
  ghost predicate KeyShape(p: seq<string>) {
    || p == ["word", "prime", "filler"]
    || (&& |p| == 4 && p[0] == "word" && p[1] == "prime"
        && p[2] in {"female", "male", "neutral"} && p[3] in {"adult", "child", "neutral"})
    || (|p| == 4 && p[0] == "word" && p[1] == "target" && p[2] in {"female", "male", "neutral", "control"})
    || (|p| == 5 && p[0] == "response" && p[2] in {"female", "male", "neutral", "control"} && p[4] in {"m", "z"})
  }

  ghost predicate RowsShaped(rows: seq<Row>) {
    forall i :: 0 <= i < |rows| ==> KeyShape(rows[i].path)
  }

  /** A key found in a block of well-formed, shaped rows splits into one of the shapes. */
  lemma FoundShaped(rows: seq<Row>, key: string)
    requires PathsWellFormed(rows) && RowsShaped(rows)
    requires Get(Entries(rows), key).Some?
    ensures KeyShape(Split(key))
  {
    var d := Entries(rows);
    var i :| 0 <= i < |d| && d[i].key == key;
    SplitOfSlashFreePath(rows[i].path);
  }

  /** The same for a label given as the segments it joins: its pieces have a shape. */
  lemma FoundPieces(segs: seq<string>)
    requires |segs| > 0 && Get(EventId, Path(segs)).Some?
    ensures KeyShape(SplitAll(segs))
  {
    SplitOfPath(segs);
    EventIdKeyShape(Path(segs));
  }

  /** The literal first segments hold no slash. */
  lemma LeadingSegmentsSlashFree()
    ensures '/' !in "word" && '/' !in "prime" && '/' !in "target" && '/' !in "response"
  {
  }

  /** A four-segment label under "word/prime" whose pieces have a shape is a prime of a
      gender and an age; its gender and age cannot hold a slash. */
  lemma PrimePieces(segs: seq<string>)
    requires |segs| == 4 && segs[0] == "word" && segs[1] == "prime"
    requires KeyShape(SplitAll(segs))
    ensures segs[2] in {"female", "male", "neutral"} && segs[3] in {"adult", "child", "neutral"}
  {
    var p := SplitAll(segs);
    LeadingPieces(segs);
    assert p != ["word", "prime", "filler"];
    assert |p| == 4;
    SplitAllLength(segs);
    assert p == segs;
  }

  /** The first two pieces of a word label are its first two segments, and there are at
      least as many pieces as segments. */
  lemma LeadingPieces(segs: seq<string>)
    requires |segs| >= 2 && segs[0] == "word" && (segs[1] == "prime" || segs[1] == "target")
    ensures |SplitAll(segs)| >= |segs|
    ensures SplitAll(segs)[0] == segs[0] && SplitAll(segs)[1] == segs[1]
  {
    SplitAllLength(segs);
    assert '/' !in segs[0] && '/' !in segs[1] by { LeadingSegmentsSlashFree(); }
    SplitAllHead(segs, 2);
    assert SplitAll(segs)[..2][0] == SplitAll(segs)[0];
    assert SplitAll(segs)[..2][1] == SplitAll(segs)[1];
  }

  /** A four-segment label under "word/target" whose pieces have a shape has one of the
      four target genders. */
  lemma TargetPieces(segs: seq<string>)
    requires |segs| == 4 && segs[0] == "word" && segs[1] == "target"
    requires KeyShape(SplitAll(segs))
    ensures segs[2] in {"female", "male", "neutral", "control"}
  {
    var p := SplitAll(segs);
    LeadingPieces(segs);
    assert p[1] != "prime";
    assert |p| == 4;
    SplitAllLength(segs);
    assert p == segs;
  }

  /** A five-segment label under "response" whose pieces have a shape has one of the four
      target genders and a response key "m" or "z". */
  lemma ResponsePieces(segs: seq<string>)
    requires |segs| == 5 && segs[0] == "response"
    requires KeyShape(SplitAll(segs))
    ensures segs[2] in {"female", "male", "neutral", "control"} && segs[4] in {"m", "z"}
  {
    var p := SplitAll(segs);
    SplitAllLength(segs);
    assert '/' !in segs[0] by { LeadingSegmentsSlashFree(); }
    SplitAllHead(segs, 1);
    assert p[0] == segs[..1][0];
    assert p[0] != "word";
    assert |p| == 5;
    assert p == segs;
  }

  /** Every label that `event_id` holds has one of the four shapes of `KeyShape`. */
  lemma EventIdKeyShape(key: string)
    requires Get(EventId, key).Some?
    ensures KeyShape(Split(key))
  {
    InEventId(key);
    if Get(PrimeEntries, key).Some? {
      PrimePathsWellFormed();
      PrimeRowsShaped();
      FoundShaped(PrimeRows, key);
    } else if Get(TargetEntries, key).Some? {
      TargetPathsWellFormed();
      TargetRowsShaped();
      FoundShaped(TargetRows, key);
    } else if Get(IncorrectBinaryEntries, key).Some? {
      IncorrectBinaryPathsWellFormed();
      IncorrectBinaryRowsShaped();
      FoundShaped(IncorrectBinaryRows, key);
    } else if Get(IncorrectOtherEntries, key).Some? {
      IncorrectOtherPathsWellFormed();
      IncorrectOtherRowsShaped();
      FoundShaped(IncorrectOtherRows, key);
    } else if Get(CorrectBinaryEntries, key).Some? {
      CorrectBinaryPathsWellFormed();
      CorrectBinaryRowsShaped();
      FoundShaped(CorrectBinaryRows, key);
    } else {
      CorrectOtherPathsWellFormed();
      CorrectOtherRowsShaped();
      FoundShaped(CorrectOtherRows, key);
    }
  }

  lemma PrimeTargetApart()
    ensures LabelsDisjoint(PrimeEntries, TargetEntries)
  {
    PrimePathsWellFormed();
    TargetPathsWellFormed();
    PrimeMarked1();
    TargetMarked1();
    EntriesApart(PrimeRows, TargetRows, 1, {"prime"}, {"target"});
  }

  lemma PrimeIncorrectBinaryApart()
    ensures LabelsDisjoint(PrimeEntries, IncorrectBinaryEntries)
  {
    PrimePathsWellFormed();
    IncorrectBinaryPathsWellFormed();
    PrimeMarked0();
    IncorrectBinaryMarked0();
    EntriesApart(PrimeRows, IncorrectBinaryRows, 0, {"word"}, {"response"});
  }

  lemma PrimeIncorrectOtherApart()
    ensures LabelsDisjoint(PrimeEntries, IncorrectOtherEntries)
  {
    PrimePathsWellFormed();
    IncorrectOtherPathsWellFormed();
    PrimeMarked0();
    IncorrectOtherMarked0();
    EntriesApart(PrimeRows, IncorrectOtherRows, 0, {"word"}, {"response"});
  }

  lemma PrimeCorrectBinaryApart()
    ensures LabelsDisjoint(PrimeEntries, CorrectBinaryEntries)
  {
    PrimePathsWellFormed();
    CorrectBinaryPathsWellFormed();
    PrimeMarked0();
    CorrectBinaryMarked0();
    EntriesApart(PrimeRows, CorrectBinaryRows, 0, {"word"}, {"response"});
  }

  lemma PrimeCorrectOtherApart()
    ensures LabelsDisjoint(PrimeEntries, CorrectOtherEntries)
  {
    PrimePathsWellFormed();
    CorrectOtherPathsWellFormed();
    PrimeMarked0();
    CorrectOtherMarked0();
    EntriesApart(PrimeRows, CorrectOtherRows, 0, {"word"}, {"response"});
  }

  lemma TargetIncorrectBinaryApart()
    ensures LabelsDisjoint(TargetEntries, IncorrectBinaryEntries)
  {
    TargetPathsWellFormed();
    IncorrectBinaryPathsWellFormed();
    TargetMarked0();
    IncorrectBinaryMarked0();
    EntriesApart(TargetRows, IncorrectBinaryRows, 0, {"word"}, {"response"});
  }

  lemma TargetIncorrectOtherApart()
    ensures LabelsDisjoint(TargetEntries, IncorrectOtherEntries)
  {
    TargetPathsWellFormed();
    IncorrectOtherPathsWellFormed();
    TargetMarked0();
    IncorrectOtherMarked0();
    EntriesApart(TargetRows, IncorrectOtherRows, 0, {"word"}, {"response"});
  }

  lemma TargetCorrectBinaryApart()
    ensures LabelsDisjoint(TargetEntries, CorrectBinaryEntries)
  {
    TargetPathsWellFormed();
    CorrectBinaryPathsWellFormed();
    TargetMarked0();
    CorrectBinaryMarked0();
    EntriesApart(TargetRows, CorrectBinaryRows, 0, {"word"}, {"response"});
  }

  lemma TargetCorrectOtherApart()
    ensures LabelsDisjoint(TargetEntries, CorrectOtherEntries)
  {
    TargetPathsWellFormed();
    CorrectOtherPathsWellFormed();
    TargetMarked0();
    CorrectOtherMarked0();
    EntriesApart(TargetRows, CorrectOtherRows, 0, {"word"}, {"response"});
  }

  lemma IncorrectBinaryIncorrectOtherApart()
    ensures LabelsDisjoint(IncorrectBinaryEntries, IncorrectOtherEntries)
  {
    IncorrectBinaryPathsWellFormed();
    IncorrectOtherPathsWellFormed();
    IncorrectBinaryMarked2();
    IncorrectOtherMarked2();
    EntriesApart(IncorrectBinaryRows, IncorrectOtherRows, 2, {"female", "male"}, {"neutral", "control"});
  }

  lemma IncorrectBinaryCorrectBinaryApart()
    ensures LabelsDisjoint(IncorrectBinaryEntries, CorrectBinaryEntries)
  {
    IncorrectBinaryPathsWellFormed();
    CorrectBinaryPathsWellFormed();
    IncorrectBinaryMarked1();
    CorrectBinaryMarked1();
    EntriesApart(IncorrectBinaryRows, CorrectBinaryRows, 1, {"incorrect"}, {"correct"});
  }

  lemma IncorrectBinaryCorrectOtherApart()
    ensures LabelsDisjoint(IncorrectBinaryEntries, CorrectOtherEntries)
  {
    IncorrectBinaryPathsWellFormed();
    CorrectOtherPathsWellFormed();
    IncorrectBinaryMarked1();
    CorrectOtherMarked1();
    EntriesApart(IncorrectBinaryRows, CorrectOtherRows, 1, {"incorrect"}, {"correct"});
  }

  lemma IncorrectOtherCorrectBinaryApart()
    ensures LabelsDisjoint(IncorrectOtherEntries, CorrectBinaryEntries)
  {
    IncorrectOtherPathsWellFormed();
    CorrectBinaryPathsWellFormed();
    IncorrectOtherMarked1();
    CorrectBinaryMarked1();
    EntriesApart(IncorrectOtherRows, CorrectBinaryRows, 1, {"incorrect"}, {"correct"});
  }

  lemma IncorrectOtherCorrectOtherApart()
    ensures LabelsDisjoint(IncorrectOtherEntries, CorrectOtherEntries)
  {
    IncorrectOtherPathsWellFormed();
    CorrectOtherPathsWellFormed();
    IncorrectOtherMarked1();
    CorrectOtherMarked1();
    EntriesApart(IncorrectOtherRows, CorrectOtherRows, 1, {"incorrect"}, {"correct"});
  }

  lemma CorrectBinaryCorrectOtherApart()
    ensures LabelsDisjoint(CorrectBinaryEntries, CorrectOtherEntries)
  {
    CorrectBinaryPathsWellFormed();
    CorrectOtherPathsWellFormed();
    CorrectBinaryMarked2();
    CorrectOtherMarked2();
    EntriesApart(CorrectBinaryRows, CorrectOtherRows, 2, {"female", "male"}, {"neutral", "control"});
  }

  lemma PrimeKeysDistinct()
    ensures KeysDistinct(PrimeEntries)
  {
    PrimePathsDistinct();
    PrimePathsWellFormed();
    EntriesKeysDistinct(PrimeRows);
  }

  lemma PrimeCodesDistinct()
    ensures CodesDistinct(PrimeEntries)
  {
    PrimeRowCodesDistinct();
    EntriesCodesDistinct(PrimeRows);
  }

  lemma PrimeRange()
    ensures CodesWithin(PrimeEntries, 11, 40)
  {
    PrimeRowCodesWithin();
    EntriesCodesWithin(PrimeRows, 11, 40);
  }

  lemma TargetKeysDistinct()
    ensures KeysDistinct(TargetEntries)
  {
    TargetPathsDistinct();
    TargetPathsWellFormed();
    EntriesKeysDistinct(TargetRows);
  }

  lemma TargetCodesDistinct()
    ensures CodesDistinct(TargetEntries)
  {
    TargetRowCodesDistinct();
    EntriesCodesDistinct(TargetRows);
  }

  lemma TargetRange()
    ensures CodesWithin(TargetEntries, 111, 144)
  {
    TargetRowCodesWithin();
    EntriesCodesWithin(TargetRows, 111, 144);
  }

  lemma IncorrectBinaryKeysDistinct()
    ensures KeysDistinct(IncorrectBinaryEntries)
  {
    IncorrectBinaryPathsDistinct();
    IncorrectBinaryPathsWellFormed();
    EntriesKeysDistinct(IncorrectBinaryRows);
  }

  lemma IncorrectBinaryCodesDistinct()
    ensures CodesDistinct(IncorrectBinaryEntries)
  {
    IncorrectBinaryRowCodesDistinct();
    EntriesCodesDistinct(IncorrectBinaryRows);
  }

  lemma IncorrectBinaryRange()
    ensures CodesWithin(IncorrectBinaryEntries, 161, 197)
  {
    IncorrectBinaryRowCodesWithin();
    EntriesCodesWithin(IncorrectBinaryRows, 161, 197);
  }

  lemma IncorrectOtherKeysDistinct()
    ensures KeysDistinct(IncorrectOtherEntries)
  {
    IncorrectOtherPathsDistinct();
    IncorrectOtherPathsWellFormed();
    EntriesKeysDistinct(IncorrectOtherRows);
  }

  lemma IncorrectOtherCodesDistinct()
    ensures CodesDistinct(IncorrectOtherEntries)
  {
    IncorrectOtherRowCodesDistinct();
    EntriesCodesDistinct(IncorrectOtherRows);
  }

  lemma IncorrectOtherRange()
    ensures CodesWithin(IncorrectOtherEntries, 163, 199)
  {
    IncorrectOtherRowCodesWithin();
    EntriesCodesWithin(IncorrectOtherRows, 163, 199);
  }

  lemma CorrectBinaryKeysDistinct()
    ensures KeysDistinct(CorrectBinaryEntries)
  {
    CorrectBinaryPathsDistinct();
    CorrectBinaryPathsWellFormed();
    EntriesKeysDistinct(CorrectBinaryRows);
  }

  lemma CorrectBinaryCodesDistinct()
    ensures CodesDistinct(CorrectBinaryEntries)
  {
    CorrectBinaryRowCodesDistinct();
    EntriesCodesDistinct(CorrectBinaryRows);
  }

  lemma CorrectBinaryRange()
    ensures CodesWithin(CorrectBinaryEntries, 211, 247)
  {
    CorrectBinaryRowCodesWithin();
    EntriesCodesWithin(CorrectBinaryRows, 211, 247);
  }

  lemma CorrectOtherKeysDistinct()
    ensures KeysDistinct(CorrectOtherEntries)
  {
    CorrectOtherPathsDistinct();
    CorrectOtherPathsWellFormed();
    EntriesKeysDistinct(CorrectOtherRows);
  }

  lemma CorrectOtherCodesDistinct()
    ensures CodesDistinct(CorrectOtherEntries)
  {
    CorrectOtherRowCodesDistinct();
    EntriesCodesDistinct(CorrectOtherRows);
  }

  lemma CorrectOtherRange()
    ensures CodesWithin(CorrectOtherEntries, 213, 249)
  {
    CorrectOtherRowCodesWithin();
    EntriesCodesWithin(CorrectOtherRows, 213, 249);
  }

  // How the sixteen-row blocks are laid out. Rather than comparing every pair of rows of
  // a literal, each block is shown to follow a regular layout, one segment at a time, and
  // distinctness of the paths is proved once for the layout. The codes are handled the
  // same way: each code's place in its block is computed from the code (`CodeRank`), and
  // the two response blocks of one correctness fall in different residues modulo 5.

  const ResponseKeys: seq<string> := ["m", "z"]
  const BinaryGenders: seq<string> := ["female", "male"]
  const OtherGenders: seq<string> := ["neutral", "control"]
  const TargetGenderOrder: seq<string> := ["female", "male", "neutral", "control"]
  const FemaleColumn: seq<string> := ["congruent", "incongruent", "neutral", "filler"]
  const MaleColumn: seq<string> := ["incongruent", "congruent", "neutral", "filler"]
  const PrimeColumn: seq<string> := ["female", "male", "neutral", "filler"]
  const TargetColumns: seq<seq<string>> := [FemaleColumn, MaleColumn, PrimeColumn, PrimeColumn]
  const BinaryColumns: seq<seq<string>> := [FemaleColumn, MaleColumn]
  const OtherColumns: seq<seq<string>> := [PrimeColumn, PrimeColumn]

  ghost predicate WordsDistinct(words: seq<string>) {
    forall x, y :: 0 <= x < |words| && 0 <= y < |words| && x != y ==> words[x] != words[y]
  }

  /** Segment `k` of row `i` is `words[i / stride]`: runs of `stride` rows share it. */
  ghost predicate Runs(rows: seq<Row>, k: nat, stride: nat, words: seq<string>) {
    && stride > 0
    && forall i :: 0 <= i < |rows| ==>
         k < |rows[i].path| && i / stride < |words| && rows[i].path[k] == words[i / stride]
  }

  /** Within each run of `outer` rows, runs of `inner` rows share segment `k`, taken in
      turn from that run's column of words. */
  ghost predicate NestedRuns(rows: seq<Row>, k: nat, outer: nat, inner: nat, columns: seq<seq<string>>) {
    && outer > 0 && inner > 0
    && forall i :: 0 <= i < |rows| ==>
         && k < |rows[i].path| && i / outer < |columns| && (i % outer) / inner < |columns[i / outer]|
         && rows[i].path[k] == columns[i / outer][(i % outer) / inner]
  }

  /** Segment `k` alternates between the two `words` row by row. */
  ghost predicate Alternates(rows: seq<Row>, k: nat, words: seq<string>) {
    && |words| == 2
    && forall i :: 0 <= i < |rows| ==> k < |rows[i].path| && rows[i].path[k] == words[i % 2]
  }

  /** The place of code `c` in a block whose codes step by `step` along each run of `run`
      rows and by one from run to run. */
  function CodeRank(c: int, base: int, step: int, run: int): int
    requires step > 0
  {
    run * ((c - base) % step) + (c - base) / step
  }

  /** Codes whose places are their rows are distinct. */
  lemma DistinctByCodeRank(rows: seq<Row>, base: int, step: int, run: int)
    requires step > 0
    requires forall i :: 0 <= i < |rows| ==> CodeRank(rows[i].code, base, step, run) == i
    ensures RowCodesDistinct(rows)
  {
  }

  lemma ResidueShift(x: int)
    ensures (x + 2) % 5 == (x % 5 + 2) % 5
  {
  }

  /** Codes of two blocks that fall in different residues modulo 5 differ. */
  lemma ApartByResidue(a: seq<Row>, b: seq<Row>, base: int)
    requires forall i :: 0 <= i < |a| ==> 0 <= (a[i].code - base) % 5 < 2
    requires forall j :: 0 <= j < |b| ==> 2 <= (b[j].code - base) % 5 < 4
    ensures RowCodesApart(a, b)
  {
  }

  lemma WordListsDistinct()
    ensures WordsDistinct(ResponseKeys) && WordsDistinct(BinaryGenders) && WordsDistinct(OtherGenders)
    ensures WordsDistinct(TargetGenderOrder)
    ensures WordsDistinct(FemaleColumn) && WordsDistinct(MaleColumn) && WordsDistinct(PrimeColumn)
    ensures forall c :: 0 <= c < |TargetColumns| ==> WordsDistinct(TargetColumns[c])
    ensures forall c :: 0 <= c < |BinaryColumns| ==> WordsDistinct(BinaryColumns[c])
    ensures forall c :: 0 <= c < |OtherColumns| ==> WordsDistinct(OtherColumns[c])
  {
  }

  /** Sixteen response rows in the layout have distinct paths. */
  lemma ResponsesDistinct(rows: seq<Row>, genders: seq<string>, columns: seq<seq<string>>, keys: seq<string>)
    requires |rows| == 16 && |keys| == 2
    requires Runs(rows, 2, 8, genders) && NestedRuns(rows, 3, 8, 2, columns) && Alternates(rows, 4, keys)
    requires WordsDistinct(genders) && WordsDistinct(keys)
    requires forall c :: 0 <= c < |columns| ==> WordsDistinct(columns[c])
    ensures PathsDistinct(rows)
  {
    forall i, j | 0 <= i < j < |rows| ensures rows[i].path != rows[j].path {
      if i / 8 != j / 8 {
        assert rows[i].path[2] != rows[j].path[2];
      } else if (i % 8) / 2 != (j % 8) / 2 {
        assert rows[i].path[3] != rows[j].path[3];
      } else {
        assert i % 2 != j % 2;
        assert rows[i].path[4] != rows[j].path[4];
      }
    }
  }

  /** Sixteen target rows in the layout have distinct paths. */
  lemma TargetsDistinct(rows: seq<Row>, genders: seq<string>, columns: seq<seq<string>>)
    requires |rows| == 16
    requires Runs(rows, 2, 4, genders) && NestedRuns(rows, 3, 4, 1, columns)
    requires WordsDistinct(genders)
    requires forall c :: 0 <= c < |columns| ==> WordsDistinct(columns[c])
    ensures PathsDistinct(rows)
  {
    forall i, j | 0 <= i < j < |rows| ensures rows[i].path != rows[j].path {
      if i / 4 != j / 4 {
        assert rows[i].path[2] != rows[j].path[2];
      } else {
        assert i % 4 != j % 4;
        assert rows[i].path[3] != rows[j].path[3];
      }
    }
  }

  // Facts about the rows of one block, or of two blocks, each checked on the literal.

  lemma PrimePathsDistinct()
    ensures PathsDistinct(PrimeRows)
  {
  }

  lemma PrimePathsWellFormed()
    ensures PathsWellFormed(PrimeRows)
  {
  }

  lemma PrimeMarked0()
    ensures PathsMarked(PrimeRows, 0, {"word"})
  {
  }

  lemma PrimeMarked1()
    ensures PathsMarked(PrimeRows, 1, {"prime"})
  {
  }

  lemma PrimeRowCodesDistinct()
    ensures RowCodesDistinct(PrimeRows)
  {
  }

  lemma PrimeRowCodesWithin()
    ensures RowCodesWithin(PrimeRows, 11, 40)
  {
  }

  lemma TargetPathsDistinct()
    ensures PathsDistinct(TargetRows)
  {
    TargetGendersLaid();
    TargetColumnsLaid();
    assert Runs(TargetRows, 2, 4, TargetGenderOrder) && NestedRuns(TargetRows, 3, 4, 1, TargetColumns);
    WordListsDistinct();
    TargetsDistinct(TargetRows, TargetGenderOrder, TargetColumns);
  }

  lemma TargetGendersLaid()
    ensures forall i :: 0 <= i < |TargetRows| ==>
              2 < |TargetRows[i].path| && TargetRows[i].path[2] == TargetGenderOrder[i / 4]
  {
  }

  lemma TargetColumnsLaid()
    ensures forall i :: 0 <= i < |TargetRows| ==>
              3 < |TargetRows[i].path| && TargetRows[i].path[3] == TargetColumns[i / 4][i % 4]
  {
  }

  lemma TargetPathsWellFormed()
    ensures PathsWellFormed(TargetRows)
  {
  }

  lemma TargetMarked0()
    ensures PathsMarked(TargetRows, 0, {"word"})
  {
  }

  lemma TargetMarked1()
    ensures PathsMarked(TargetRows, 1, {"target"})
  {
  }

  lemma TargetRowCodesDistinct()
    ensures RowCodesDistinct(TargetRows)
  {
    TargetCodesRanked();
    DistinctByCodeRank(TargetRows, 111, 10, 4);
  }

  lemma TargetCodesRanked()
    ensures forall i :: 0 <= i < |TargetRows| ==> CodeRank(TargetRows[i].code, 111, 10, 4) == i
  {
  }

  lemma TargetRowCodesWithin()
    ensures RowCodesWithin(TargetRows, 111, 144)
  {
  }

  lemma IncorrectBinaryPathsDistinct()
    ensures PathsDistinct(IncorrectBinaryRows)
  {
    IncorrectBinaryGendersLaid();
    IncorrectBinaryColumnsLaid();
    IncorrectBinaryKeysLaid();
    assert Runs(IncorrectBinaryRows, 2, 8, BinaryGenders) && NestedRuns(IncorrectBinaryRows, 3, 8, 2, BinaryColumns);
    assert Alternates(IncorrectBinaryRows, 4, ResponseKeys);
    WordListsDistinct();
    ResponsesDistinct(IncorrectBinaryRows, BinaryGenders, BinaryColumns, ResponseKeys);
  }

  lemma IncorrectBinaryGendersLaid()
    ensures forall i :: 0 <= i < |IncorrectBinaryRows| ==> 2 < |IncorrectBinaryRows[i].path| && IncorrectBinaryRows[i].path[2] == BinaryGenders[i / 8]
  {
  }

  lemma IncorrectBinaryColumnsLaid()
    ensures forall i :: 0 <= i < |IncorrectBinaryRows| ==>
              3 < |IncorrectBinaryRows[i].path| && IncorrectBinaryRows[i].path[3] == BinaryColumns[i / 8][(i % 8) / 2]
  {
  }

  lemma IncorrectBinaryKeysLaid()
    ensures forall i :: 0 <= i < |IncorrectBinaryRows| ==> 4 < |IncorrectBinaryRows[i].path| && IncorrectBinaryRows[i].path[4] == ResponseKeys[i % 2]
  {
  }

  lemma IncorrectBinaryPathsWellFormed()
    ensures PathsWellFormed(IncorrectBinaryRows)
  {
  }

  lemma IncorrectBinaryMarked0()
    ensures PathsMarked(IncorrectBinaryRows, 0, {"response"})
  {
  }

  lemma IncorrectBinaryMarked1()
    ensures PathsMarked(IncorrectBinaryRows, 1, {"incorrect"})
  {
  }

  lemma IncorrectBinaryMarked2()
    ensures PathsMarked(IncorrectBinaryRows, 2, {"female", "male"})
  {
  }

  lemma IncorrectBinaryRowCodesDistinct()
    ensures RowCodesDistinct(IncorrectBinaryRows)
  {
    IncorrectBinaryCodesRanked();
    DistinctByCodeRank(IncorrectBinaryRows, 161, 5, 8);
  }

  lemma IncorrectBinaryCodesRanked()
    ensures forall i :: 0 <= i < |IncorrectBinaryRows| ==> CodeRank(IncorrectBinaryRows[i].code, 161, 5, 8) == i
  {
  }

  lemma IncorrectBinaryCodesResidue()
    ensures forall i :: 0 <= i < |IncorrectBinaryRows| ==> 0 <= (IncorrectBinaryRows[i].code - 161) % 5 < 2
  {
  }

  lemma IncorrectBinaryRowCodesWithin()
    ensures RowCodesWithin(IncorrectBinaryRows, 161, 197)
  {
  }

  lemma IncorrectOtherPathsDistinct()
    ensures PathsDistinct(IncorrectOtherRows)
  {
    IncorrectOtherGendersLaid();
    IncorrectOtherColumnsLaid();
    IncorrectOtherKeysLaid();
    assert Runs(IncorrectOtherRows, 2, 8, OtherGenders) && NestedRuns(IncorrectOtherRows, 3, 8, 2, OtherColumns);
    assert Alternates(IncorrectOtherRows, 4, ResponseKeys);
    WordListsDistinct();
    ResponsesDistinct(IncorrectOtherRows, OtherGenders, OtherColumns, ResponseKeys);
  }

  lemma IncorrectOtherGendersLaid()
    ensures forall i :: 0 <= i < |IncorrectOtherRows| ==> 2 < |IncorrectOtherRows[i].path| && IncorrectOtherRows[i].path[2] == OtherGenders[i / 8]
  {
  }

  lemma IncorrectOtherColumnsLaid()
    ensures forall i :: 0 <= i < |IncorrectOtherRows| ==>
              3 < |IncorrectOtherRows[i].path| && IncorrectOtherRows[i].path[3] == OtherColumns[i / 8][(i % 8) / 2]
  {
  }

  lemma IncorrectOtherKeysLaid()
    ensures forall i :: 0 <= i < |IncorrectOtherRows| ==> 4 < |IncorrectOtherRows[i].path| && IncorrectOtherRows[i].path[4] == ResponseKeys[i % 2]
  {
  }

  lemma IncorrectOtherPathsWellFormed()
    ensures PathsWellFormed(IncorrectOtherRows)
  {
  }

  lemma IncorrectOtherMarked0()
    ensures PathsMarked(IncorrectOtherRows, 0, {"response"})
  {
  }

  lemma IncorrectOtherMarked1()
    ensures PathsMarked(IncorrectOtherRows, 1, {"incorrect"})
  {
  }

  lemma IncorrectOtherMarked2()
    ensures PathsMarked(IncorrectOtherRows, 2, {"neutral", "control"})
  {
  }

  lemma IncorrectOtherRowCodesDistinct()
    ensures RowCodesDistinct(IncorrectOtherRows)
  {
    IncorrectOtherCodesRanked();
    DistinctByCodeRank(IncorrectOtherRows, 163, 5, 8);
  }

  lemma IncorrectOtherCodesRanked()
    ensures forall i :: 0 <= i < |IncorrectOtherRows| ==> CodeRank(IncorrectOtherRows[i].code, 163, 5, 8) == i
  {
  }

  lemma IncorrectOtherCodesResidue()
    ensures forall i :: 0 <= i < |IncorrectOtherRows| ==> 0 <= (IncorrectOtherRows[i].code - 163) % 5 < 2
  {
  }

  lemma IncorrectOtherRowCodesWithin()
    ensures RowCodesWithin(IncorrectOtherRows, 163, 199)
  {
  }

  lemma CorrectBinaryPathsDistinct()
    ensures PathsDistinct(CorrectBinaryRows)
  {
    CorrectBinaryGendersLaid();
    CorrectBinaryColumnsLaid();
    CorrectBinaryKeysLaid();
    assert Runs(CorrectBinaryRows, 2, 8, BinaryGenders) && NestedRuns(CorrectBinaryRows, 3, 8, 2, BinaryColumns);
    assert Alternates(CorrectBinaryRows, 4, ResponseKeys);
    WordListsDistinct();
    ResponsesDistinct(CorrectBinaryRows, BinaryGenders, BinaryColumns, ResponseKeys);
  }

  lemma CorrectBinaryGendersLaid()
    ensures forall i :: 0 <= i < |CorrectBinaryRows| ==> 2 < |CorrectBinaryRows[i].path| && CorrectBinaryRows[i].path[2] == BinaryGenders[i / 8]
  {
  }

  lemma CorrectBinaryColumnsLaid()
    ensures forall i :: 0 <= i < |CorrectBinaryRows| ==>
              3 < |CorrectBinaryRows[i].path| && CorrectBinaryRows[i].path[3] == BinaryColumns[i / 8][(i % 8) / 2]
  {
  }

  lemma CorrectBinaryKeysLaid()
    ensures forall i :: 0 <= i < |CorrectBinaryRows| ==> 4 < |CorrectBinaryRows[i].path| && CorrectBinaryRows[i].path[4] == ResponseKeys[i % 2]
  {
  }

  lemma CorrectBinaryPathsWellFormed()
    ensures PathsWellFormed(CorrectBinaryRows)
  {
  }

  lemma CorrectBinaryMarked0()
    ensures PathsMarked(CorrectBinaryRows, 0, {"response"})
  {
  }

  lemma CorrectBinaryMarked1()
    ensures PathsMarked(CorrectBinaryRows, 1, {"correct"})
  {
  }

  lemma CorrectBinaryMarked2()
    ensures PathsMarked(CorrectBinaryRows, 2, {"female", "male"})
  {
  }

  lemma CorrectBinaryRowCodesDistinct()
    ensures RowCodesDistinct(CorrectBinaryRows)
  {
    CorrectBinaryCodesRanked();
    DistinctByCodeRank(CorrectBinaryRows, 211, 5, 8);
  }

  lemma CorrectBinaryCodesRanked()
    ensures forall i :: 0 <= i < |CorrectBinaryRows| ==> CodeRank(CorrectBinaryRows[i].code, 211, 5, 8) == i
  {
  }

  lemma CorrectBinaryCodesResidue()
    ensures forall i :: 0 <= i < |CorrectBinaryRows| ==> 0 <= (CorrectBinaryRows[i].code - 211) % 5 < 2
  {
  }

  lemma CorrectBinaryRowCodesWithin()
    ensures RowCodesWithin(CorrectBinaryRows, 211, 247)
  {
  }

  lemma CorrectOtherPathsDistinct()
    ensures PathsDistinct(CorrectOtherRows)
  {
    CorrectOtherGendersLaid();
    CorrectOtherColumnsLaid();
    CorrectOtherKeysLaid();
    assert Runs(CorrectOtherRows, 2, 8, OtherGenders) && NestedRuns(CorrectOtherRows, 3, 8, 2, OtherColumns);
    assert Alternates(CorrectOtherRows, 4, ResponseKeys);
    WordListsDistinct();
    ResponsesDistinct(CorrectOtherRows, OtherGenders, OtherColumns, ResponseKeys);
  }

  lemma CorrectOtherGendersLaid()
    ensures forall i :: 0 <= i < |CorrectOtherRows| ==> 2 < |CorrectOtherRows[i].path| && CorrectOtherRows[i].path[2] == OtherGenders[i / 8]
  {
  }

  lemma CorrectOtherColumnsLaid()
    ensures forall i :: 0 <= i < |CorrectOtherRows| ==>
              3 < |CorrectOtherRows[i].path| && CorrectOtherRows[i].path[3] == OtherColumns[i / 8][(i % 8) / 2]
  {
  }

  lemma CorrectOtherKeysLaid()
    ensures forall i :: 0 <= i < |CorrectOtherRows| ==> 4 < |CorrectOtherRows[i].path| && CorrectOtherRows[i].path[4] == ResponseKeys[i % 2]
  {
  }

  lemma CorrectOtherPathsWellFormed()
    ensures PathsWellFormed(CorrectOtherRows)
  {
  }

  lemma CorrectOtherMarked0()
    ensures PathsMarked(CorrectOtherRows, 0, {"response"})
  {
  }

  lemma CorrectOtherMarked1()
    ensures PathsMarked(CorrectOtherRows, 1, {"correct"})
  {
  }

  lemma CorrectOtherMarked2()
    ensures PathsMarked(CorrectOtherRows, 2, {"neutral", "control"})
  {
  }

  lemma CorrectOtherRowCodesDistinct()
    ensures RowCodesDistinct(CorrectOtherRows)
  {
    CorrectOtherCodesRanked();
    DistinctByCodeRank(CorrectOtherRows, 213, 5, 8);
  }

  lemma CorrectOtherCodesRanked()
    ensures forall i :: 0 <= i < |CorrectOtherRows| ==> CodeRank(CorrectOtherRows[i].code, 213, 5, 8) == i
  {
  }

  lemma CorrectOtherCodesResidue()
    ensures forall i :: 0 <= i < |CorrectOtherRows| ==> 0 <= (CorrectOtherRows[i].code - 213) % 5 < 2
  {
  }

  lemma CorrectOtherRowCodesWithin()
    ensures RowCodesWithin(CorrectOtherRows, 213, 249)
  {
  }

  lemma PrimeRowsShaped()
    ensures RowsShaped(PrimeRows)
  {
  }

  lemma TargetRowsShaped()
    ensures RowsShaped(TargetRows)
  {
  }

  lemma IncorrectBinaryRowsShaped()
    ensures RowsShaped(IncorrectBinaryRows)
  {
  }

  lemma IncorrectOtherRowsShaped()
    ensures RowsShaped(IncorrectOtherRows)
  {
  }

  lemma CorrectBinaryRowsShaped()
    ensures RowsShaped(CorrectBinaryRows)
  {
  }

  lemma CorrectOtherRowsShaped()
    ensures RowsShaped(CorrectOtherRows)
  {
  }

  lemma PrimeRowsAvoidRawCodes()
    ensures RowCodesAvoid(PrimeRows, RawCodes)
  {
  }

  lemma IncorrectRowCodesApart()
    ensures RowCodesApart(IncorrectBinaryRows, IncorrectOtherRows)
  {
    IncorrectBinaryCodesResidue();
    IncorrectOtherCodesResidue();
    assert forall j :: 0 <= j < |IncorrectOtherRows| ==> 2 <= (IncorrectOtherRows[j].code - 161) % 5 < 4 by {
      forall j | 0 <= j < |IncorrectOtherRows| ensures 2 <= (IncorrectOtherRows[j].code - 161) % 5 < 4 {
        ResidueShift(IncorrectOtherRows[j].code - 163);
      }
    }
    ApartByResidue(IncorrectBinaryRows, IncorrectOtherRows, 161);
  }

  lemma CorrectRowCodesApart()
    ensures RowCodesApart(CorrectBinaryRows, CorrectOtherRows)
  {
    CorrectBinaryCodesResidue();
    CorrectOtherCodesResidue();
    assert forall j :: 0 <= j < |CorrectOtherRows| ==> 2 <= (CorrectOtherRows[j].code - 211) % 5 < 4 by {
      forall j | 0 <= j < |CorrectOtherRows| ensures 2 <= (CorrectOtherRows[j].code - 211) % 5 < 4 {
        ResidueShift(CorrectOtherRows[j].code - 213);
      }
    }
    ApartByResidue(CorrectBinaryRows, CorrectOtherRows, 211);
  }
}
