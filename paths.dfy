/** Slash-separated label paths: the strings that the f-strings of helper_functions.py
    build, such as "word/prime/female/adult", as the join of their segments. */
module Paths {

  /** `"/".join(segs)` */
  function Path(segs: seq<string>): string
    decreases |segs|
  {
    if |segs| == 0 then ""
    else if |segs| == 1 then segs[0]
    else segs[0] + "/" + Path(segs[1..])
  }

  /** No segment contains the separator. */
  ghost predicate SlashFree(segs: seq<string>) {
    forall i :: 0 <= i < |segs| ==> '/' !in segs[i]
  }

  /** A path of two or more segments contains the separator right after its first segment. */
  lemma SlashAfterFirst(segs: seq<string>)
    requires |segs| > 1
    ensures |segs[0]| < |Path(segs)| && Path(segs)[|segs[0]|] == '/'
  {
    assert Path(segs) == segs[0] + "/" + Path(segs[1..]);
  }

  /** A path of two or more segments is its first segment, a separator and the rest. */
  lemma {:induction false} RestAfterFirst(segs: seq<string>)
    requires |segs| > 1
    ensures Path(segs)[..|segs[0]|] == segs[0]
    ensures Path(segs)[|segs[0]| + 1..] == Path(segs[1..])
  {
    var s := Path(segs);
    assert s == segs[0] + "/" + Path(segs[1..]);
    assert s[..|segs[0]|] == segs[0];
    assert s[|segs[0]| + 1..] == Path(segs[1..]);
  }

  /** Joining slash-free segments loses nothing: equal paths come from equal segment
      lists. So a lookup of a joined label matches a key exactly when the segments match. */
  lemma {:induction false} PathInjective(a: seq<string>, b: seq<string>)
    requires |a| > 0 && |b| > 0
    requires SlashFree(a) && SlashFree(b)
    requires Path(a) == Path(b)
    ensures a == b
    decreases |a|
  {
    if |a| == 1 && |b| == 1 {
    } else if |a| == 1 {
      SlashAfterFirst(b);
      assert false;
    } else if |b| == 1 {
      SlashAfterFirst(a);
      assert false;
    } else {
      SlashAfterFirst(a);
      SlashAfterFirst(b);
      if |a[0]| < |b[0]| {
        assert false;
      } else if |b[0]| < |a[0]| {
        assert false;
      } else {
        RestAfterFirst(a);
        RestAfterFirst(b);
        assert a[0] == b[0];
        assert SlashFree(a[1..]) by {
          forall i | 0 <= i < |a[1..]| ensures '/' !in a[1..][i] { assert a[1..][i] == a[i + 1]; }
        }
        assert SlashFree(b[1..]) by {
          forall i | 0 <= i < |b[1..]| ensures '/' !in b[1..][i] { assert b[1..][i] == b[i + 1]; }
        }
        PathInjective(a[1..], b[1..]);
        assert a == [a[0]] + a[1..] && b == [b[0]] + b[1..];
      }
    }
  }

  lemma PathOfThree(a: string, b: string, c: string)
    ensures Path([a, b, c]) == a + "/" + b + "/" + c
  {
    assert [a, b, c][1..] == [b, c];
    assert [b, c][1..] == [c];
    assert Path([b, c]) == b + "/" + c;
    assert a + "/" + (b + "/" + c) == a + "/" + b + "/" + c;
  }

  lemma PathOfFour(a: string, b: string, c: string, d: string)
    ensures Path([a, b, c, d]) == a + "/" + b + "/" + c + "/" + d
  {
    assert [a, b, c, d][1..] == [b, c, d];
    PathOfThree(b, c, d);
    assert a + "/" + (b + "/" + c + "/" + d) == a + "/" + b + "/" + c + "/" + d;
  }

  lemma PathOfFive(a: string, b: string, c: string, d: string, e: string)
    ensures Path([a, b, c, d, e]) == a + "/" + b + "/" + c + "/" + d + "/" + e
  {
    assert [a, b, c, d, e][1..] == [b, c, d, e];
    PathOfFour(b, c, d, e);
    assert a + "/" + (b + "/" + c + "/" + d + "/" + e) == a + "/" + b + "/" + c + "/" + d + "/" + e;
  }

  /** `s.split("/")`: the pieces between separators, always at least one. */
  function Split(s: string): (r: seq<string>)
    ensures |r| > 0
    decreases |s|
  {
    if |s| == 0 then [""]
    else if s[0] == '/' then [""] + Split(s[1..])
    else var rest := Split(s[1..]); [[s[0]] + rest[0]] + rest[1..]
  }

  /** The pieces of every segment, in order. */
  function SplitAll(segs: seq<string>): seq<string>
    decreases |segs|
  {
    if |segs| == 0 then [] else Split(segs[0]) + SplitAll(segs[1..])
  }

  /** Joining the pieces gives the string back. */
  lemma {:induction false} PathOfSplit(s: string)
    ensures Path(Split(s)) == s
    decreases |s|
  {
    if |s| == 0 {
    } else {
      var r := Split(s[1..]);
      PathOfSplit(s[1..]);
      assert s == [s[0]] + s[1..];
      if s[0] == '/' {
        PathBehindEmpty(r);
      } else {
        PathWithFirstChar(s[0], r);
      }
    }
  }

  /** An empty first segment leaves only the separator in front. */
  lemma PathBehindEmpty(r: seq<string>)
    requires |r| > 0
    ensures Path([""] + r) == "/" + Path(r)
  {
    assert ([""] + r)[1..] == r;
  }

  /** A character put in front of the first segment is put in front of the path. */
  lemma PathWithFirstChar(c: char, r: seq<string>)
    requires |r| > 0
    ensures Path([[c] + r[0]] + r[1..]) == [c] + Path(r)
  {
    if |r| > 1 {
      PathWithFirstCharLonger(c, r[0], r[1..]);
      assert [r[0]] + r[1..] == r;
    }
  }

  lemma SeqAssoc(a: string, b: string, c: string)
    ensures a + b + c == a + (b + c)
  {
  }

  lemma PathWithFirstCharLonger(c: char, h: string, t: seq<string>)
    requires |t| > 0
    ensures Path([[c] + h] + t) == [c] + Path([h] + t)
  {
    var x, y := [[c] + h] + t, [h] + t;
    assert |x| > 1 && x[0] == [c] + h && x[1..] == t;
    assert |y| > 1 && y[0] == h && y[1..] == t;
    var p := Path(t);
    calc {
      Path(x);
      [c] + h + "/" + p;
      { SeqAssoc([c] + h, "/", p); SeqAssoc([c], h, "/" + p); SeqAssoc(h, "/", p); }
      [c] + (h + "/" + p);
      [c] + Path(y);
    }
  }

  /** A string with one piece is that piece. */
  lemma SplitOne(s: string)
    requires |Split(s)| == 1
    ensures Split(s) == [s]
  {
    PathOfSplit(s);
  }

  /** Splitting at a separator splits both sides. */
  lemma {:induction false} SplitJoin(a: string, b: string)
    ensures Split(a + "/" + b) == Split(a) + Split(b)
    decreases |a|
  {
    if |a| == 0 {
      assert a + "/" + b == ['/'] + b;
      SplitCons('/', b);
    } else {
      var u, c := a[1..], a[0];
      assert a == [c] + u;
      assert a + "/" + b == [c] + (u + "/" + b);
      SplitJoin(u, b);
      var r, q := Split(u), Split(b);
      assert Split(u + "/" + b) == r + q;
      SplitCons(c, u + "/" + b);
      SplitCons(c, u);
      if c == '/' {
        assert Split(a + "/" + b) == [""] + (r + q);
        assert Split(a) == [""] + r;
        assert [""] + (r + q) == [""] + r + q;
      } else {
        assert Split(a + "/" + b) == [[c] + (r + q)[0]] + (r + q)[1..];
        assert Split(a) == [[c] + r[0]] + r[1..];
        FirstPieceExtended(c, r, q);
      }
    }
  }

  /** What splitting does with the first character. */
  lemma SplitCons(c: char, u: string)
    ensures c == '/' ==> Split([c] + u) == [""] + Split(u)
    ensures c != '/' ==> Split([c] + u) == [[c] + Split(u)[0]] + Split(u)[1..]
  {
    assert ([c] + u)[1..] == u;
  }

  lemma FirstPieceExtended(c: char, r: seq<string>, q: seq<string>)
    requires |r| > 0
    ensures [[c] + (r + q)[0]] + (r + q)[1..] == [[c] + r[0]] + r[1..] + q
  {
    assert (r + q)[0] == r[0] && (r + q)[1..] == r[1..] + q;
  }

  /** The pieces of a join are the pieces of its segments. */
  lemma {:induction false} SplitOfPath(segs: seq<string>)
    requires |segs| > 0
    ensures Split(Path(segs)) == SplitAll(segs)
    decreases |segs|
  {
    if |segs| == 1 {
      assert SplitAll(segs) == Split(segs[0]) + SplitAll([]);
    } else {
      SplitJoin(segs[0], Path(segs[1..]));
      SplitOfPath(segs[1..]);
    }
  }

  /** Every segment gives at least one piece; exactly one each only when no segment
      holds a separator, and then the pieces are the segments. */
  lemma {:induction false} SplitAllLength(segs: seq<string>)
    ensures |SplitAll(segs)| >= |segs|
    ensures |SplitAll(segs)| == |segs| ==> SplitAll(segs) == segs
    decreases |segs|
  {
    if |segs| > 0 {
      SplitAllLength(segs[1..]);
      if |SplitAll(segs)| == |segs| {
        SplitOne(segs[0]);
        assert segs == [segs[0]] + segs[1..];
      }
    }
  }

  /** Leading segments without a separator are the leading pieces. */
  lemma {:induction false} SplitAllHead(segs: seq<string>, k: nat)
    requires k <= |segs|
    requires forall i :: 0 <= i < k ==> '/' !in segs[i]
    ensures k <= |SplitAll(segs)| && SplitAll(segs)[..k] == segs[..k]
    decreases k
  {
    SplitAllLength(segs);
    if k > 0 {
      SplitOfSlashFree(segs[0]);
      SplitAllHead(segs[1..], k - 1);
      assert SplitAll(segs) == [segs[0]] + SplitAll(segs[1..]);
      assert segs[..k] == [segs[0]] + segs[1..][..k - 1];
    }
  }

  /** A string without a separator is one piece. */
  lemma {:induction false} SplitOfSlashFree(s: string)
    requires '/' !in s
    ensures Split(s) == [s]
    decreases |s|
  {
    if |s| > 0 {
      assert s[0] in s;
      assert '/' !in s[1..] by {
        forall j | 0 <= j < |s[1..]| ensures s[1..][j] != '/' { assert s[1..][j] == s[j + 1]; }
      }
      SplitOfSlashFree(s[1..]);
      assert s == [s[0]] + s[1..];
    }
  }

  /** Slash-free segments are their own pieces. */
  lemma {:induction false} SplitAllOfSlashFree(segs: seq<string>)
    requires SlashFree(segs)
    ensures SplitAll(segs) == segs
    decreases |segs|
  {
    if |segs| > 0 {
      SplitOfSlashFree(segs[0]);
      assert SlashFree(segs[1..]) by {
        forall i | 0 <= i < |segs[1..]| ensures '/' !in segs[1..][i] { assert segs[1..][i] == segs[i + 1]; }
      }
      SplitAllOfSlashFree(segs[1..]);
      assert segs == [segs[0]] + segs[1..];
    }
  }

  /** Slash-free segments are the pieces of their join. */
  lemma SplitOfSlashFreePath(segs: seq<string>)
    requires |segs| > 0 && SlashFree(segs)
    ensures Split(Path(segs)) == segs
  {
    SplitOfPath(segs);
    SplitAllOfSlashFree(segs);
  }
}
