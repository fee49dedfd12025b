/**
 * String helpers with Python's meaning: `str.startswith`, `str.endswith`,
 * `str.split(sep)` for a one-character separator and `sep.join(lines)`.
 */
module Text {

  predicate StartsWith(s: string, prefix: string) {
    |prefix| <= |s| && s[..|prefix|] == prefix
  }

  predicate EndsWith(s: string, suffix: string) {
    |suffix| <= |s| && s[|s| - |suffix|..] == suffix
  }

  /** `s.split(sep)`: the pieces between separators; never empty, `"".split(sep) == [""]`. */
  function Split(s: string, sep: char): (pieces: seq<string>)
    ensures |pieces| > 0
    ensures forall i :: 0 <= i < |pieces| ==> sep !in pieces[i]
  {
    if |s| == 0 then [""]
    else
      var rest := Split(s[1..], sep);
      if s[0] == sep then [""] + rest
      else [[s[0]] + rest[0]] + rest[1..]
  }

  /** `[sep].join(lines)`. */
  function Join(lines: seq<string>, sep: char): string {
    if |lines| == 0 then ""
    else if |lines| == 1 then lines[0]
    else lines[0] + [sep] + Join(lines[1..], sep)
  }

  function Last<T>(s: seq<T>): T
    requires |s| > 0
  {
    s[|s| - 1]
  }

  /** A string without the separator is a single piece. */
  lemma {:induction false} SplitWithoutSep(s: string, sep: char)
    requires sep !in s
    ensures Split(s, sep) == [s]
  {
    if |s| > 0 {
      SplitWithoutSep(s[1..], sep);
      assert [s[0]] + s[1..] == s;
    }
  }

  /** Splitting a concatenation glues the last piece of `a` to the first piece of `b`. */
  lemma {:induction false} SplitAppend(a: string, b: string, sep: char)
    ensures Split(a + b, sep) == Glue(Split(a, sep), Split(b, sep))
  {
    var q := Split(b, sep);
    if |a| == 0 {
      assert a + b == b;
      assert Split(a, sep) == [""];
      assert "" + q[0] == q[0];
      assert [q[0]] + q[1..] == q;
    } else {
      var ab := a + b;
      assert ab[1..] == a[1..] + b;
      SplitAppend(a[1..], b, sep);
      if a[0] == sep {
        GlueCons("", Split(a[1..], sep), q);
      } else {
        GlueExtend([a[0]], Split(a[1..], sep), q);
      }
    }
  }

  /** The pieces of `p` and `q` with the last piece of `p` joined to the first of `q`. */
  function Glue(p: seq<string>, q: seq<string>): seq<string>
    requires |p| > 0 && |q| > 0
  {
    p[..|p| - 1] + [Last(p) + q[0]] + q[1..]
  }

  lemma GlueCons(x: string, p: seq<string>, q: seq<string>)
    requires |p| > 0 && |q| > 0
    ensures Glue([x] + p, q) == [x] + Glue(p, q)
  {
    assert ([x] + p)[..|p|] == [x] + p[..|p| - 1];
  }

  lemma GlueExtend(c: string, p: seq<string>, q: seq<string>)
    requires |p| > 0 && |q| > 0
    ensures var g := Glue(p, q); Glue([c + p[0]] + p[1..], q) == [c + g[0]] + g[1..]
  {
    var g := Glue(p, q);
    if |p| == 1 {
      assert c + (p[0] + q[0]) == (c + p[0]) + q[0];
    } else {
      assert g[0] == p[0];
      assert g[1..] == p[1..|p| - 1] + [Last(p) + q[0]] + q[1..];
      assert ([c + p[0]] + p[1..])[..|p| - 1] == [c + p[0]] + p[1..|p| - 1];
    }
  }

  /** Splitting at one more separator adds one piece. */
  lemma SplitAround(a: string, b: string, sep: char)
    requires sep !in a
    ensures Split(a + [sep] + b, sep) == [a] + Split(b, sep)
  {
    SplitWithoutSep(a, sep);
    SplitAppend(a + [sep], b, sep);
    SplitAppend(a, [sep], sep);
    assert [sep][1..] == [];
    assert Split([sep], sep) == ["", ""];
    assert a + "" == a;
    assert Glue([a], ["", ""]) == [a, ""];
    var q := Split(b, sep);
    assert "" + q[0] == q[0];
    assert [q[0]] + q[1..] == q;
    assert a + [sep] + b == (a + [sep]) + b;
  }

  /** `sep.join(s.split(sep)) == s`. */
  lemma {:induction false} JoinSplit(s: string, sep: char)
    ensures Join(Split(s, sep), sep) == s
  {
    if |s| > 0 {
      JoinSplit(s[1..], sep);
      var rest := Split(s[1..], sep);
      assert s == [s[0]] + s[1..];
      if s[0] != sep && |rest| > 1 {
        var r := [[s[0]] + rest[0]] + rest[1..];
        assert r[1..] == rest[1..];
        assert Join(rest, sep) == rest[0] + [sep] + Join(rest[1..], sep);
      }
    }
  }

  /** Joining pieces that contain no separator and splitting again gives the pieces back. */
  lemma {:induction false} SplitJoin(lines: seq<string>, sep: char)
    requires |lines| > 0
    requires forall i :: 0 <= i < |lines| ==> sep !in lines[i]
    ensures Split(Join(lines, sep), sep) == lines
  {
    if |lines| == 1 {
      SplitWithoutSep(lines[0], sep);
    } else {
      SplitJoin(lines[1..], sep);
      SplitAround(lines[0], Join(lines[1..], sep), sep);
      assert [lines[0]] + lines[1..] == lines;
    }
  }

  /**
   * The last piece of a split is a suffix of the string; it is the whole string
   * when there is no separator, and otherwise it starts right after the last one.
   */
  lemma {:induction false} LastPieceIsSuffix(s: string, sep: char)
    ensures EndsWith(s, Last(Split(s, sep)))
    ensures sep !in s ==> Split(s, sep) == [s]
    ensures sep in s ==>
      var piece := Last(Split(s, sep));
      |Split(s, sep)| > 1 && |piece| < |s| && s[|s| - |piece| - 1] == sep
  {
    if sep !in s {
      SplitWithoutSep(s, sep);
    } else {
      var t := s[1..];
      LastPieceIsSuffix(t, sep);
      var rest := Split(t, sep);
      assert s == [s[0]] + t;
      var piece := Last(rest);
      if s[0] == sep {
        assert Last(Split(s, sep)) == piece;
        if sep in t {
          assert s[|s| - |piece| - 1] == t[|t| - |piece| - 1];
        } else {
          assert piece == t;
        }
      } else {
        assert sep in t;
        assert Last(Split(s, sep)) == piece;
        assert s[|s| - |piece| - 1] == t[|t| - |piece| - 1];
        assert s[|s| - |piece|..] == t[|t| - |piece|..];
      }
    }
  }

  /** A character missing from a string is missing from each of its suffixes. */
  lemma NotInSuffix(s: string, suffix: string, c: char)
    requires EndsWith(s, suffix) && c !in s
    ensures c !in suffix
  {
    forall i | 0 <= i < |suffix| ensures suffix[i] != c {
      assert suffix[i] == s[|s| - |suffix| + i];
    }
  }
}
