/**
 * `create_mapping_file`: the reference file written next to each vault file.
 * It holds a commented rendering of the extracted structure and one mapping
 * entry per top-level key from the logical name to a `{{ vault_... }}`
 * placeholder. `yaml.dump` is external: the dump of the structure is given as
 * text and the dump of one entry as a function.
 */
module Mapping {
  import opened Text
  import opened Naming
  import opened Yaml
  import opened Extractor
  import opened FileNames

  /** A Jinja placeholder for the variable `name`. */
  function Placeholder(name: string): string {
    "{{ " + name + " }}"
  }

  /**
   * The entry written for top-level key `key`: `(key, "{{ vault_key }}")` for an
   * unprefixed key, `(key[6:], "{{ key }}")` for one already prefixed.
   */
  function MappingPair(key: string): (pair: (string, string))
    ensures pair.0 == Unprefixed(key)
    ensures pair.1 == Placeholder(Prefixed(key))
    ensures pair.1 == Placeholder(Prefix + pair.0)
  {
    if !StartsWith(key, "vault_") then (key, "{{ vault_" + key + " }}")
    else (key[6..], "{{ " + key + " }}")
  }

  /** The entries for the top-level keys of a dict, in the dict's order. */
  function MappingPairs(entries: seq<(string, Value)>): (pairs: seq<(string, string)>) {
    seq(|entries|, i requires 0 <= i < |entries| => MappingPair(entries[i].0))
  }

  /** A key and its `vault_`-prefixed form get the same entry. */
  lemma {:induction false} MappingPairStable(key: string)
    ensures MappingPair(Prefixed(key)) == MappingPair(key)
  {
    PrefixedIdempotent(key);
    UnprefixedStable(key);
  }

  /**
   * The top-level keys of `renamed` are those of `entries` after a prefixing
   * run: the same number of keys in the same order, each either kept or
   * replaced by its prefixed form. The prefixer renames a key written as a bare
   * word at the start of its line (`Prefixer.SubstituteKeyLine`) and keeps one
   * written in quotes, so both outcomes occur. Values may differ: the rewrite
   * works on lines, so it also prefixes a continuation line at column 0 inside
   * a quoted scalar or a flow collection, which changes that value.
   */
  predicate RenamedByPrefixing(entries: seq<(string, Value)>, renamed: seq<(string, Value)>) {
    |renamed| == |entries| &&
    forall i :: 0 <= i < |entries| ==>
      renamed[i].0 == entries[i].0 || renamed[i].0 == Prefixed(entries[i].0)
  }

  /** The mapping entries are the same before and after the keys are prefixed. */
  lemma MappingPairsStable(entries: seq<(string, Value)>, renamed: seq<(string, Value)>)
    requires RenamedByPrefixing(entries, renamed)
    ensures MappingPairs(renamed) == MappingPairs(entries)
  {
    forall i | 0 <= i < |entries|
      ensures MappingPair(renamed[i].0) == MappingPair(entries[i].0)
    {
      MappingPairStable(entries[i].0);
    }
  }

  /**
   * Whole-pipeline stability: extracting and mapping a document gives the same
   * entries whether or not its top-level keys have been prefixed, as long as the
   * renamed keys are still distinct, so that loading the rewritten text gives
   * back the renamed dict (`PrefixingCanCollide` shows they need not be).
   */
  lemma MappingStableAcrossPrefixing(entries: seq<(string, Value)>, renamed: seq<(string, Value)>)
    requires DistinctKeys(entries) && DistinctKeys(renamed)
    requires RenamedByPrefixing(entries, renamed)
    ensures Structure(Dict(renamed)).Dict?
    ensures MappingPairs(Structure(Dict(renamed)).entries)
         == MappingPairs(Structure(Dict(entries)).entries)
  {
    var shape := Structure(Dict(entries)).entries;
    var renamedShape := Structure(Dict(renamed)).entries;
    assert RenamedByPrefixing(shape, renamedShape);
    MappingPairsStable(shape, renamedShape);
  }

  /**
   * A vault with both `db` and `vault_db` at the top level: prefixing renames
   * `db` to a second `vault_db` (`Prefixer.KeyCollision`), so the renamed keys
   * are no longer distinct and `yaml.safe_load` keeps only the last of the two.
   */
  lemma PrefixingCanCollide()
    ensures var entries := [("db", Leaf(Str("a"))), ("vault_db", Leaf(Str("b")))];
      var renamed := [("vault_db", Leaf(Str("a"))), ("vault_db", Leaf(Str("b")))];
      DistinctKeys(entries) && RenamedByPrefixing(entries, renamed) && !DistinctKeys(renamed)
  {
    assert !IsPrefixed("db");
    assert Prefix + "db" == "vault_db";
    assert Prefixed("db") == "vault_db";
    assert "db" != "vault_db";
    var entries := [("db", Leaf(Str("a"))), ("vault_db", Leaf(Str("b")))];
    var renamed := [("vault_db", Leaf(Str("a"))), ("vault_db", Leaf(Str("b")))];
    assert renamed[1].0 == entries[1].0;
    assert renamed[0].0 == Prefixed(entries[0].0);
  }

  /**
   * Distinct top-level keys give distinct left-hand names exactly when no key
   * `k` occurs next to its prefixed form `vault_k`.
   */
  lemma MappingNamesDistinctIff(entries: seq<(string, Value)>)
    requires DistinctKeys(entries)
    ensures (forall i, j :: 0 <= i < j < |entries| ==>
               MappingPairs(entries)[i].0 != MappingPairs(entries)[j].0)
        <==> !exists i, j :: 0 <= i < |entries| && 0 <= j < |entries| &&
               !IsPrefixed(entries[j].0) && entries[i].0 == Prefix + entries[j].0
  {
    var pairs := MappingPairs(entries);
    forall i, j | 0 <= i < |entries| && 0 <= j < |entries| && i != j
      ensures pairs[i].0 == pairs[j].0 <==>
        (!IsPrefixed(entries[j].0) && entries[i].0 == Prefix + entries[j].0) ||
        (!IsPrefixed(entries[i].0) && entries[j].0 == Prefix + entries[i].0)
    {
      SameLogicalName(entries[i].0, entries[j].0);
    }
  }

  lemma SameLogicalName(a: string, b: string)
    requires a != b
    ensures Unprefixed(a) == Unprefixed(b) <==>
      (!IsPrefixed(b) && a == Prefix + b) || (!IsPrefixed(a) && b == Prefix + a)
  {
    if Unprefixed(a) == Unprefixed(b) {
      assert Prefixed(a) == Prefixed(b);
    }
    if !IsPrefixed(b) && a == Prefix + b {
      assert a[..|Prefix|] == Prefix;
      assert a[|Prefix|..] == b;
    }
    if !IsPrefixed(a) && b == Prefix + a {
      assert b[..|Prefix|] == Prefix;
      assert b[|Prefix|..] == a;
    }
  }

  /**
   * `"### data structure in {}:\n#\n"` with the vault file's base name: a title
   * line naming the file, a line holding only `#`, then the text goes on at the
   * start of a fresh line.
   */
  function Header(fileName: string): (header: string)
    ensures '\n' !in fileName ==>
      Split(header, '\n') == ["### data structure in " + BaseName(fileName) + ":", "#", ""]
  {
    var title := "### data structure in " + BaseName(fileName) + ":";
    if '\n' !in fileName then
      assert '\n' !in BaseName(fileName) by {
        NotInSuffix(fileName, BaseName(fileName), '\n');
      }
      assert '\n' !in title;
      TwoLines(title, "#");
      assert title + "\n#\n" == title + "\n" + "#" + "\n";
      title + "\n#\n"
    else
      title + "\n#\n"
  }

  /**
   * `"\n### mapping to vaulted_variables:\n"`: closes the comment block with an
   * empty line, then the title of the entries on a line of its own.
   */
  function Separator(): (separator: string)
    ensures Split(separator, '\n') == ["", "### mapping to vaulted_variables:", ""]
  {
    var title := "### mapping to vaulted_variables:";
    assert '\n' !in title;
    SplitAround(title, "", '\n');
    assert title + ['\n'] + "" == title + "\n";
    SplitAround("", title + "\n", '\n');
    assert "" + ['\n'] + (title + "\n") == "\n" + title + "\n";
    "\n" + title + "\n"
  }

  /** Two lines, each ended by a newline, split into the two lines and an empty rest. */
  lemma TwoLines(a: string, b: string)
    requires '\n' !in a && '\n' !in b
    ensures Split(a + "\n" + b + "\n", '\n') == [a, b, ""]
  {
    SplitAround(b, "", '\n');
    assert b + ['\n'] + "" == b + "\n";
    SplitAround(a, b + "\n", '\n');
    assert a + "\n" + b + "\n" == a + ['\n'] + (b + "\n");
  }

  /** `"# {}\n"` for each line, in order. */
  function CommentLines(lines: seq<string>): string {
    if |lines| == 0 then ""
    else CommentLines(lines[..|lines| - 1]) + "# " + Last(lines) + "\n"
  }

  /**
   * The structure's dump commented out: one comment line per line of the dump
   * except the last piece (the empty text after `yaml.dump`'s final newline),
   * each the dumped line behind `"# "`, and a final newline.
   */
  function CommentBlock(dumped: string): (block: string)
    ensures var lines := Split(dumped, '\n');
      Split(block, '\n') == Commented(lines[..|lines| - 1]) + [""]
  {
    var lines := Split(dumped, '\n');
    SplitCommentLines(lines[..|lines| - 1]);
    CommentLines(lines[..|lines| - 1])
  }

  function Commented(lines: seq<string>): seq<string> {
    seq(|lines|, i requires 0 <= i < |lines| => "# " + lines[i])
  }

  lemma {:induction false} SplitCommentLines(lines: seq<string>)
    requires forall i :: 0 <= i < |lines| ==> '\n' !in lines[i]
    ensures Split(CommentLines(lines), '\n') == Commented(lines) + [""]
  {
    if |lines| > 0 {
      var init := lines[..|lines| - 1];
      var line := "# " + Last(lines);
      SplitCommentLines(init);
      assert '\n' !in line by {
        forall k | 0 <= k < |line| ensures line[k] != '\n' {
          if k >= 2 {
            assert line[k] == Last(lines)[k - 2];
          }
        }
      }
      assert CommentLines(lines) == CommentLines(init) + (line + "\n");
      SplitAround(line, "", '\n');
      assert line + "\n" == line + ['\n'] + "";
      SplitAppend(CommentLines(init), line + "\n", '\n');
      var x := Commented(init);
      assert Glue(x + [""], [line, ""]) == x + ["" + line] + [""];
      assert "" + line == line;
      assert Commented(lines) == x + [line];
    }
  }

  /**
   * The dumps of the entries, one after another: nothing for no entries, the
   * entry's dump for one entry, and otherwise the first entry's dump opens the
   * text and the last one's closes it.
   */
  function EntryText(pairs: seq<(string, string)>, dumpEntry: (string, string) -> string): (text: string)
    ensures |pairs| == 0 ==> text == ""
    ensures |pairs| == 1 ==> text == dumpEntry(pairs[0].0, pairs[0].1)
    ensures |pairs| > 0 ==> StartsWith(text, dumpEntry(pairs[0].0, pairs[0].1))
    ensures |pairs| > 0 ==> EndsWith(text, dumpEntry(Last(pairs).0, Last(pairs).1))
  {
    if |pairs| == 0 then ""
    else
      var init := EntryText(pairs[..|pairs| - 1], dumpEntry);
      var last := dumpEntry(Last(pairs).0, Last(pairs).1);
      var first := dumpEntry(pairs[0].0, pairs[0].1);
      assert (init + last)[|init|..] == last;
      if |pairs| == 1 then
        assert (init + last)[..|first|] == first;
        init + last
      else
        assert pairs[..|pairs| - 1][0] == pairs[0];
        assert (init + last)[..|first|] == init[..|first|];
        init + last
  }

  /** Writing the entries of `p` and then those of `q` writes the entries of `p + q`. */
  lemma {:induction false} EntryTextAppend(p: seq<(string, string)>, q: seq<(string, string)>,
                                           dumpEntry: (string, string) -> string)
    ensures EntryText(p + q, dumpEntry) == EntryText(p, dumpEntry) + EntryText(q, dumpEntry)
  {
    if |q| == 0 {
      assert p + q == p;
    } else {
      var q' := q[..|q| - 1];
      EntryTextAppend(p, q', dumpEntry);
      assert (p + q)[..|p + q| - 1] == p + q';
      assert Last(p + q) == Last(q);
    }
  }

  /**
   * What `create_mapping_file` leaves behind: the path it opened, the text
   * written to it, and whether it ran to the end. On a structure that is not a
   * dict, `.items()` raises after the header, comment block and separator are
   * written.
   */
  datatype MappingFile = MappingFile(path: string, text: string, complete: bool)

  /** The mapping file for `structure` as a value. */
  function MappingDocument(fileName: string, structure: Value, dumped: string,
                           dumpEntry: (string, string) -> string): (doc: MappingFile)
    ensures doc.path == MappingFileName(fileName)
    ensures !IsCandidate(doc.path)
    ensures doc.complete <==> structure.Dict?
    ensures StartsWith(doc.text, Header(fileName) + CommentBlock(dumped) + Separator())
    ensures !doc.complete ==> doc.text == Header(fileName) + CommentBlock(dumped) + Separator()
  {
    var preamble := Header(fileName) + CommentBlock(dumped) + Separator();
    var entries := if structure.Dict? then EntryText(MappingPairs(structure.entries), dumpEntry) else "";
    assert (preamble + entries)[..|preamble|] == preamble;
    MappingFile(MappingFileName(fileName), preamble + entries, structure.Dict?)
  }

  /** The loop over `yaml.dump(...).split("\n")[:-1]` writing `"# {}\n"` per line. */
  method WriteCommentBlock(dumped: string) returns (block: string)
    ensures block == CommentBlock(dumped)
    ensures var lines := Split(dumped, '\n');
      Split(block, '\n') == Commented(lines[..|lines| - 1]) + [""]
  {
    var structLines := Split(dumped, '\n');
    structLines := structLines[..|structLines| - 1];
    block := "";
    for i := 0 to |structLines|
      invariant block == CommentLines(structLines[..i])
    {
      assert structLines[..i + 1][..i] == structLines[..i];
      block := block + "# " + structLines[i] + "\n";
    }
    assert structLines[..|structLines|] == structLines;
  }

  /** The loop over the top-level keys writing the dump of each key's entry. */
  method WriteEntries(entries: seq<(string, Value)>, dumpEntry: (string, string) -> string)
    returns (text: string)
    ensures text == EntryText(MappingPairs(entries), dumpEntry)
  {
    text := "";
    for i := 0 to |entries|
      invariant text == EntryText(MappingPairs(entries[..i]), dumpEntry)
    {
      assert MappingPairs(entries[..i + 1])[..i] == MappingPairs(entries[..i]);
      var pair := MappingPair(entries[i].0);
      text := text + dumpEntry(pair.0, pair.1);
    }
    assert entries[..|entries|] == entries;
  }

  /**
   * `create_mapping_file` as the source runs it: open the mapping path, write the
   * header, the commented dump, the separator, then one dumped entry per
   * top-level key; stop after the separator when the structure is not a dict.
   */
  method CreateMappingFile(fileName: string, structure: Value, dumped: string,
                           dumpEntry: (string, string) -> string) returns (file: MappingFile)
    ensures file == MappingDocument(fileName, structure, dumped, dumpEntry)
    ensures file.complete ==>
      file.text == Header(fileName) + CommentBlock(dumped) + Separator()
                   + EntryText(MappingPairs(structure.entries), dumpEntry)
  {
    var path := MappingFileName(fileName);
    var block := WriteCommentBlock(dumped);
    var text := Header(fileName) + block + Separator();
    if !structure.Dict? {
      return MappingFile(path, text, false);
    }
    var entries := WriteEntries(structure.entries, dumpEntry);
    file := MappingFile(path, text + entries, true);
  }

  /** A vault document with a nested dict and a plain value, as an example. */
  function ExampleDocument(): Value {
    Dict([("db", Dict([("user", Leaf(Str("admin"))), ("pass", Leaf(Str("s3cr3t")))])),
          ("region", Leaf(Str("eu")))])
  }

  /**
   * The example's structure hides both passwords and the region, and its
   * mapping entries name only the top-level keys `db` and `region`; the nested
   * keys appear only in the commented structure.
   */
  lemma ExampleMapping()
    ensures Structure(ExampleDocument()) ==
      Dict([("db", Dict([("user", Secret), ("pass", Secret)])), ("region", Secret)])
    ensures MappingPairs(Structure(ExampleDocument()).entries) ==
      [("db", "{{ vault_db }}"), ("region", "{{ vault_region }}")]
  {
    var inner := [("user", Leaf(Str("admin"))), ("pass", Leaf(Str("s3cr3t")))];
    assert Structure(Dict(inner)) == Dict([("user", Secret), ("pass", Secret)]);
    assert !StartsWith("region", "vault_") by {
      assert "region"[0] != Prefix[0];
    }
    assert "{{ vault_" + "db" + " }}" == "{{ vault_db }}";
    assert "{{ vault_" + "region" + " }}" == "{{ vault_region }}";
  }

  /** A prefixed key maps its logical name to itself, an unprefixed one to its prefixed form. */
  lemma ExamplePairs()
    ensures MappingPair("vault_db_pass") == ("db_pass", "{{ vault_db_pass }}")
    ensures MappingPair("api_token") == ("api_token", "{{ vault_api_token }}")
  {
    assert "vault_db_pass"[..6] == "vault_";
    assert "vault_db_pass"[6..] == "db_pass";
    assert "{{ " + "vault_db_pass" + " }}" == "{{ vault_db_pass }}";
    assert !StartsWith("api_token", "vault_") by {
      assert "api_token"[0] != Prefix[0];
    }
    assert "{{ vault_" + "api_token" + " }}" == "{{ vault_api_token }}";
  }
}
