/**
 * The key prefixer of `add_vault_prefixes`: every line of the decrypted vault
 * text is passed through the substitution `^(?!vault_)(\w+)` -> `vault_\1`,
 * then the lines are joined again.
 */
module Prefixer {
  import opened Text
  import opened Naming

  /**
   * Python's `\w`, restricted to ASCII: letters, digits and the underscore.
   * Python 3 matches Unicode letters and digits as well.
   */
  predicate IsWordChar(c: char) {
    ('a' <= c <= 'z') || ('A' <= c <= 'Z') || ('0' <= c <= '9') || c == '_'
  }

  /** The greedy `\w+` at the start of `s`: the length of the leading run of word characters. */
  function WordRun(s: string): (n: nat)
    ensures n <= |s|
    ensures forall i :: 0 <= i < n ==> IsWordChar(s[i])
    ensures n < |s| ==> !IsWordChar(s[n])
  {
    if |s| == 0 || !IsWordChar(s[0]) then 0 else 1 + WordRun(s[1..])
  }

  /**
   * The length of group 1 where `^(?!vault_)(\w+)` matches `line`; 0 when it does
   * not match (a match always has at least one character). The pattern matches
   * exactly the candidate lines, and then takes the whole leading word.
   */
  function MatchLength(line: string): (n: nat)
    ensures n > 0 <==> IsCandidateLine(line)
    ensures n <= |line|
    ensures forall i :: 0 <= i < n ==> IsWordChar(line[i])
    ensures 0 < n < |line| ==> !IsWordChar(line[n])
  {
    if StartsWith(line, Prefix) then 0 else WordRun(line)
  }

  /**
   * `top_level_variable_regex.sub(r"vault_\1", line)`: the pattern is anchored at
   * the start, so it can match at most once, and the match is replaced by the
   * prefix followed by the captured word. The effect is that the candidate lines
   * get the prefix and the rest of such a line is untouched; indented lines,
   * comments, list items and lines already starting with `vault_` are kept.
   */
  function SubstituteLine(line: string): (out: string)
    ensures out == if IsCandidateLine(line) then Prefix + line else line
  {
    var n := MatchLength(line);
    assert line[..n] + line[n..] == line;
    if n == 0 then line else Prefix + line[..n] + line[n..]
  }

  /** A line that begins a top-level key not yet following the convention. */
  predicate IsCandidateLine(line: string) {
    |line| > 0 && IsWordChar(line[0]) && !IsPrefixed(line)
  }

  /** Re-running the substitution on a line it produced changes nothing. */
  lemma SubstituteLineIdempotent(line: string)
    ensures SubstituteLine(SubstituteLine(line)) == SubstituteLine(line)
  {
    if IsCandidateLine(line) {
      assert (Prefix + line)[..|Prefix|] == Prefix;
    }
  }

  /** The substitution never introduces a line break. */
  lemma SubstituteLineKeepsLine(line: string)
    requires '\n' !in line
    ensures '\n' !in SubstituteLine(line)
  {
    if IsCandidateLine(line) {
      assert forall i :: 0 <= i < |Prefix + line| ==> (Prefix + line)[i] != '\n' by {
        forall i | 0 <= i < |Prefix + line| ensures (Prefix + line)[i] != '\n' {
          if i >= |Prefix| {
            assert (Prefix + line)[i] == line[i - |Prefix|];
          }
        }
      }
    }
  }

  /**
   * On a line `key + rest` that begins with the whole word `key`, the
   * substitution renames the key exactly as the naming convention does.
   */
  lemma SubstituteKeyLine(key: string, rest: string)
    requires |key| > 0 && forall i :: 0 <= i < |key| ==> IsWordChar(key[i])
    requires |rest| == 0 || !IsWordChar(rest[0])
    ensures SubstituteLine(key + rest) == Prefixed(key) + rest
  {
    var line := key + rest;
    assert line[0] == key[0];
    assert IsPrefixed(line) <==> IsPrefixed(key) by {
      PrefixedKeyLine(key, rest);
    }
    assert Prefix + (key + rest) == (Prefix + key) + rest;
  }

  lemma PrefixedKeyLine(key: string, rest: string)
    requires |key| > 0 && forall i :: 0 <= i < |key| ==> IsWordChar(key[i])
    requires |rest| == 0 || !IsWordChar(rest[0])
    ensures IsPrefixed(key + rest) <==> IsPrefixed(key)
  {
    var line := key + rest;
    if |key| >= |Prefix| {
      assert line[..|Prefix|] == key[..|Prefix|];
    } else if |line| >= |Prefix| {
      assert line[|key|] == rest[0];
      assert line[..|Prefix|][|key|] != Prefix[|key|];
    }
  }

  /** A top-level key is prefixed; a nested key and a comment are not. */
  lemma ExampleLines()
    ensures SubstituteLine("db: x") == "vault_db: x"
    ensures SubstituteLine("  user: admin") == "  user: admin"
    ensures SubstituteLine("# db: x") == "# db: x"
  {
    assert "db: x" == "db" + ": x";
    SubstituteKeyLine("db", ": x");
    assert Prefix + "db" + ": x" == "vault_db: x";
  }

  /** The substitution applied to every line. */
  function RewriteLines(lines: seq<string>): (out: seq<string>) {
    seq(|lines|, i requires 0 <= i < |lines| => SubstituteLine(lines[i]))
  }

  /** `"\n".join(sub(line) for line in text.split("\n"))`: the lines of the result are the rewritten lines, one for one. */
  function RewriteText(text: string): (out: string)
    ensures Split(out, '\n') == RewriteLines(Split(text, '\n'))
  {
    var lines := RewriteLines(Split(text, '\n'));
    RewriteLinesKeepLines(Split(text, '\n'));
    SplitJoin(lines, '\n');
    Join(lines, '\n')
  }

  lemma RewriteLinesKeepLines(lines: seq<string>)
    requires forall i :: 0 <= i < |lines| ==> '\n' !in lines[i]
    ensures forall i :: 0 <= i < |lines| ==> '\n' !in RewriteLines(lines)[i]
  {
    forall i | 0 <= i < |lines| ensures '\n' !in RewriteLines(lines)[i] {
      SubstituteLineKeepsLine(lines[i]);
    }
  }

  /** Running the prefixer on its own output is the identity. */
  lemma RewriteTextIdempotent(text: string)
    ensures RewriteText(RewriteText(text)) == RewriteText(text)
  {
    var lines := Split(text, '\n');
    var once := RewriteLines(lines);
    forall i | 0 <= i < |once| ensures SubstituteLine(once[i]) == once[i] {
      SubstituteLineIdempotent(lines[i]);
    }
    assert RewriteLines(once) == once;
  }

  /**
   * The prefixer leaves a text unchanged exactly when none of its lines is a
   * candidate, i.e. every top-level key already carries the prefix.
   */
  lemma RewriteTextFixedIff(text: string)
    ensures RewriteText(text) == text <==>
      forall i :: 0 <= i < |Split(text, '\n')| ==> !IsCandidateLine(Split(text, '\n')[i])
  {
    var lines := Split(text, '\n');
    if forall i :: 0 <= i < |lines| ==> !IsCandidateLine(lines[i]) {
      assert RewriteLines(lines) == lines;
      JoinSplit(text, '\n');
    }
    if RewriteText(text) == text {
      forall i | 0 <= i < |lines| ensures !IsCandidateLine(lines[i]) {
        assert SubstituteLine(lines[i]) == lines[i];
      }
    }
  }

  /**
   * `add_vault_prefixes` on the decrypted text: split on "\n", substitute line by
   * line into a new list, join with "\n". (Decryption and re-encryption are not
   * part of this model.)
   */
  method AddVaultPrefixes(decrypted: string) returns (rewritten: string)
    ensures rewritten == RewriteText(decrypted)
    ensures |Split(rewritten, '\n')| == |Split(decrypted, '\n')|
    ensures forall i :: 0 <= i < |Split(decrypted, '\n')| ==>
      var line := Split(decrypted, '\n')[i];
      Split(rewritten, '\n')[i] == if IsCandidateLine(line) then Prefix + line else line
    ensures RewriteText(rewritten) == rewritten
  {
    var lines := Split(decrypted, '\n');
    var newLines: seq<string> := [];
    for i := 0 to |lines|
      invariant |newLines| == i
      invariant forall j :: 0 <= j < i ==> newLines[j] == SubstituteLine(lines[j])
    {
      newLines := newLines + [SubstituteLine(lines[i])];
    }
    assert newLines == RewriteLines(lines);
    rewritten := Join(newLines, '\n');
    RewriteTextIdempotent(decrypted);
  }

  /**
   * A vault holding both `key` and `vault_` + `key` at the top level: the rewrite
   * turns `key` into a second `vault_` + `key`, so the rewritten text has that
   * top-level key twice.
   */
  lemma {:induction false} KeyCollision(key: string, restA: string, restB: string)
    requires |key| > 0 && forall i :: 0 <= i < |key| ==> IsWordChar(key[i])
    requires !IsPrefixed(key)
    requires |restA| == 0 || !IsWordChar(restA[0])
    requires |restB| == 0 || !IsWordChar(restB[0])
    requires '\n' !in restA && '\n' !in restB
    ensures RewriteText(key + restA + ['\n'] + Prefix + key + restB)
         == Prefix + key + restA + ['\n'] + Prefix + key + restB
  {
    var first, second := key + restA, Prefix + key + restB;
    assert key + restA + ['\n'] + Prefix + key + restB == first + ['\n'] + second;
    assert Prefix + key + restA + ['\n'] + Prefix + key + restB == (Prefix + first) + ['\n'] + second;
    assert '\n' !in first && '\n' !in second by {
      assert !IsWordChar('\n');
      assert '\n' !in Prefix;
    }
    RewriteTwoLines(first, second);
    assert SubstituteLine(first) == Prefix + first by {
      SubstituteKeyLine(key, restA);
      assert Prefix + key + restA == Prefix + first;
    }
    assert SubstituteLine(second) == second by {
      assert second[..|Prefix|] == Prefix;
    }
  }

  /** A text of two lines is rewritten line by line. */
  lemma RewriteTwoLines(a: string, b: string)
    requires '\n' !in a && '\n' !in b
    ensures RewriteText(a + ['\n'] + b) == SubstituteLine(a) + ['\n'] + SubstituteLine(b)
  {
    var text := a + ['\n'] + b;
    SplitAround(a, b, '\n');
    SplitWithoutSep(b, '\n');
    assert Split(text, '\n') == [a, b];
    var out := RewriteLines([a, b]);
    assert |out| == 2 && out[0] == SubstituteLine(a) && out[1] == SubstituteLine(b);
    assert out[1..] == [out[1]];
    assert Join(out, '\n') == out[0] + ['\n'] + out[1];
    assert RewriteText(text) == Join(out, '\n');
  }
}
