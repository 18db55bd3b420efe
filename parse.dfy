/**
 * ReadFile's loop as a function: each line read is trimmed and classified as
 * blank, comment, section header or key/value, and a key/value line under a
 * recognised header goes into the store through InsertKeyValue.  The class
 * `Config` runs the same loop over the lines of the file.
 */
module IniParse {
  import opened IniText
  import opened IniStore

  /** The loop variables of ReadFile: the current section name (empty before any header) and the store. */
  datatype ParseState = ParseState(current: string, sections: seq<Section>)

  /** The state before the first line: no current section, no sections. */
  function Start(): ParseState
  {
    ParseState("", [])
  }

  /** One pass of ReadFile's loop over a line as getline returns it. */
  function Step(st: ParseState, raw: string): (r: ParseState)
    ensures Names(st.sections) <= Names(r.sections)
    ensures || r.sections == st.sections
            || (&& st.current != [] && ParseKeyValueLine(Trim(raw)).Some?
                && r.sections == InsertEntry(st.sections, st.current, ParseKeyValueLine(Trim(raw)).value))
    ensures r.current == st.current || ParseSectionLine(Trim(raw)) == Some(r.current)
  {
    var line := Trim(raw);
    if line == [] || IsCommentLine(line) then st
    else
      match ParseSectionLine(line)
      case Some(name) => ParseState(name, st.sections)
      case None =>
        if st.current == [] then st
        else
          match ParseKeyValueLine(line)
          case None => st
          case Some(kv) =>
            InsertEntryNames(st.sections, st.current, kv);
            ParseState(st.current, InsertEntry(st.sections, st.current, kv))
  }

  /** The state after the loop has run over `lines`, from `st`. */
  function ParseFrom(st: ParseState, lines: seq<string>): (r: ParseState)
    ensures |st.sections| <= |r.sections|
    decreases |lines|
  {
    if lines == [] then st
    else Step(ParseFrom(st, lines[..|lines| - 1]), lines[|lines| - 1])
  }

  /**
   * The store ReadFile builds from the lines of a file, starting from an empty
   * store.  Whatever it reads is reloadable: valid distinct section names, no
   * empty section (a header alone creates none), distinct keys.
   */
  function Parse(lines: seq<string>): (r: seq<Section>)
    ensures (forall i :: 0 <= i < |lines| ==> NoNewline(lines[i])) ==> Reloadable(r)
  {
    var r := ParseFrom(Start(), lines).sections;
    assert (forall i :: 0 <= i < |lines| ==> NoNewline(lines[i])) ==> Reloadable(r) by {
      if forall i :: 0 <= i < |lines| ==> NoNewline(lines[i]) {
        ParseFromOk(Start(), lines);
      }
    }
    r
  }

  /** The loop never drops or renames a section: the names before it are a prefix of the names after it. */
  lemma {:induction false} ParseFromKeepsNames(st: ParseState, lines: seq<string>)
    ensures Names(st.sections) <= Names(ParseFrom(st, lines).sections)
    decreases |lines|
  {
    if lines != [] {
      var prev := ParseFrom(st, lines[..|lines| - 1]);
      ParseFromKeepsNames(st, lines[..|lines| - 1]);
      assert Names(prev.sections) <= Names(Step(prev, lines[|lines| - 1]).sections);
    }
  }

  /** Running the loop over `a + b` is running it over `a`, then over `b`. */
  lemma {:induction false} ParseFromAppend(st: ParseState, a: seq<string>, b: seq<string>)
    ensures ParseFrom(st, a + b) == ParseFrom(ParseFrom(st, a), b)
    decreases |b|
  {
    if b == [] {
      assert a + b == a;
    } else {
      assert (a + b)[..|a + b| - 1] == a + b[..|b| - 1];
      ParseFromAppend(st, a, b[..|b| - 1]);
    }
  }

  // ---------------------------------------------------------------------------
  // What a parsed store looks like
  // ---------------------------------------------------------------------------

  /** An entry as the scanner produces it from a line without a line feed. */
  predicate EntryOk(kv: KeyValue)
  {
    EntryShape(kv) && kv.key != [] && NoNewline(kv.key) && NoNewline(kv.value)
  }

  /**
   * A store ReadFile can produce: valid, distinct section names; no section
   * without entries; distinct keys; every entry as the scanner produces it.
   */
  predicate Reloadable(c: seq<Section>)
  {
    && Distinct(c)
    && (forall i :: 0 <= i < |c| ==> IsValidSectionName(c[i].name) && c[i].entries != [])
    && (forall i, j :: 0 <= i < |c| && 0 <= j < |c[i].entries| ==> EntryOk(c[i].entries[j]))
  }

  /** A loop state that can occur: a reloadable store and an empty or valid current name. */
  predicate StateOk(st: ParseState)
  {
    Reloadable(st.sections) && (st.current == [] || IsValidSectionName(st.current))
  }

  /** On a line without a line feed, the scanner's entry has the shape of EntryOk. */
  lemma ParsedEntryOk(line: string)
    requires line != [] && !IsTrimSpace(line[0]) && NoNewline(line)
    requires ParseKeyValueLine(line).Some?
    ensures EntryOk(ParseKeyValueLine(line).value)
  {
    ParsedEntryShape(line);
    var p := Span(line, IsPlain);
    var rest := line[p + 1..];
    var q := Span(rest, IsPlain);
    TrimKeeps(line[..p], IsNotNewline);
    TrimKeeps(rest[..q], IsNotNewline);
  }

  /** A trimmed line keeps the absence of line feeds. */
  lemma TrimNoNewline(raw: string)
    requires NoNewline(raw)
    ensures NoNewline(Trim(raw))
  {
    TrimKeeps(raw, IsNotNewline);
  }

  /** InsertKeyValue of a scanned entry keeps the store reloadable. */
  lemma InsertEntryReloadable(c: seq<Section>, s: string, kv: KeyValue)
    requires Reloadable(c) && IsValidSectionName(s) && EntryOk(kv)
    ensures Reloadable(InsertEntry(c, s, kv))
  {
    var r := InsertEntry(c, s, kv);
    InsertEntryDistinct(c, s, kv);
    match FindSection(c, s)
    case None =>
      forall i, j | 0 <= i < |r| && 0 <= j < |r[i].entries| ensures EntryOk(r[i].entries[j]) {
        if i < |c| { assert r[i] == c[i]; }
      }
    case Some(n) =>
      var es := c[n].entries;
      assert forall j :: 0 <= j < |PutEntry(es, kv)| ==> PutEntry(es, kv)[j] == kv || PutEntry(es, kv)[j] in es;
      forall i, j | 0 <= i < |r| && 0 <= j < |r[i].entries| ensures EntryOk(r[i].entries[j]) {
        if i != n {
          assert r[i] == c[i];
        } else {
          assert r[i].entries == PutEntry(es, kv);
        }
      }
  }

  /** One pass of the loop keeps the state one that can occur. */
  lemma StepOk(st: ParseState, raw: string)
    requires StateOk(st) && NoNewline(raw)
    ensures StateOk(Step(st, raw))
  {
    var line := Trim(raw);
    if line != [] && !IsCommentLine(line) && ParseSectionLine(line).None? && st.current != [] {
      if ParseKeyValueLine(line).Some? {
        TrimNoNewline(raw);
        assert !IsTrimSpace(line[0]);
        ParsedEntryOk(line);
        InsertEntryReloadable(st.sections, st.current, ParseKeyValueLine(line).value);
      }
    }
  }

  lemma {:induction false} ParseFromOk(st: ParseState, lines: seq<string>)
    requires StateOk(st) && forall i :: 0 <= i < |lines| ==> NoNewline(lines[i])
    ensures StateOk(ParseFrom(st, lines))
    decreases |lines|
  {
    if lines != [] {
      ParseFromOk(st, lines[..|lines| - 1]);
      StepOk(ParseFrom(st, lines[..|lines| - 1]), lines[|lines| - 1]);
    }
  }

  // ---------------------------------------------------------------------------
  // Parsing rules
  // ---------------------------------------------------------------------------

  /** The header line GetConfigString writes is a header, and names its section. */
  lemma HeaderLineParses(name: string)
    requires IsValidSectionName(name)
    ensures Trim(HeaderLine(name)) == HeaderLine(name)
    ensures ParseSectionLine(HeaderLine(name)) == Some(name)
  {
    SectionLineAccepts("", name, "");
    assert "[" + "" + name + "" + "]" == HeaderLine(name);
    TrimOfTrimmed(HeaderLine(name));
  }

  /** A header line only switches the current section: on its own it creates no section. */
  lemma HeaderCreatesNoSection(st: ParseState, raw: string)
    requires ParseSectionLine(Trim(raw)).Some?
    ensures Step(st, raw) == ParseState(ParseSectionLine(Trim(raw)).value, st.sections)
  {
    assert Trim(raw)[0] == '[';
  }

  /** A file made of one header line reads as an empty store. */
  lemma HeaderOnlyFileIsEmpty(name: string)
    requires IsValidSectionName(name)
    ensures Parse([HeaderLine(name)]) == []
  {
    HeaderLineParses(name);
    var lines := [HeaderLine(name)];
    assert lines[..0] == [];
    assert ParseFrom(Start(), lines) == Step(Start(), HeaderLine(name));
    HeaderCreatesNoSection(Start(), HeaderLine(name));
  }

  /** Lines before the first recognised header add nothing: the loop stays in its start state. */
  lemma {:induction false} NoHeaderNoSections(lines: seq<string>)
    requires forall i :: 0 <= i < |lines| ==> ParseSectionLine(Trim(lines[i])).None?
    ensures ParseFrom(Start(), lines) == Start()
    decreases |lines|
  {
    if lines != [] {
      NoHeaderNoSections(lines[..|lines| - 1]);
    }
  }

  /** Key/value lines before any header are dropped, whatever follows them. */
  lemma EntriesBeforeHeaderDropped(before: seq<string>, after: seq<string>)
    requires forall i :: 0 <= i < |before| ==> ParseSectionLine(Trim(before[i])).None?
    ensures Parse(before + after) == Parse(after)
  {
    ParseFromAppend(Start(), before, after);
    NoHeaderNoSections(before);
  }

  /** A line that is not a recognised header leaves the current section as it was. */
  lemma NonHeaderKeepsSection(st: ParseState, raw: string)
    requires ParseSectionLine(Trim(raw)).None?
    ensures Step(st, raw).current == st.current
  {
  }

  /** A bracketed line outside the header grammar and without `=` changes nothing: "[1st]". */
  lemma BadHeaderIgnored(st: ParseState)
    ensures Step(st, "[1st]") == st
  {
    var line := "[1st]";
    TrimOfTrimmed(line);
    var inner := line[1..|line| - 1];
    assert inner == "1st";
    assert Span(inner, IsBlank) == 0 by { assert !IsBlank(inner[0]); }
    assert inner[0..] == inner;
    assert ParseSectionLine(line).None?;
    assert Span(line, IsPlain) == |line| by {
      assert forall i :: 0 <= i < |line| ==> IsPlain(line[i]);
    }
  }

  /**
   * A bracketed line that fails the header grammar but holds `=` is a key/value
   * line: "[a=b]" stores key "[a" with value "b]" in the current section.
   */
  lemma BracketedEntryFallsThrough(c: seq<Section>, s: string)
    requires s != []
    ensures Step(ParseState(s, c), "[a=b]") == ParseState(s, InsertEntry(c, s, KeyValue("[a", "b]", "")))
  {
    TrimOfTrimmed("[a=b]");
    BracketedNotHeader();
    BracketedScans();
  }

  /** "[a=b]" fails the header grammar: `=` is not a name character and not a blank. */
  lemma BracketedNotHeader()
    ensures ParseSectionLine("[a=b]").None?
  {
    var line := "[a=b]";
    var inner := line[1..|line| - 1];
    assert inner == "a=b";
    assert Span(inner, IsBlank) == 0 by { assert !IsBlank(inner[0]); }
    assert inner[0..] == inner;
    assert Span(inner, IsSectionChar) == 1 by { assert IsSectionChar(inner[0]) && !IsSectionChar(inner[1]); }
    assert inner[1..] == "=b" && !AllBlank(inner[1..]) by { assert !IsBlank(inner[1]); }
  }

  /** The key/value scanner splits "[a=b]" at its `=`. */
  lemma BracketedScans()
    ensures ParseKeyValueLine("[a=b]") == Some(KeyValue("[a", "b]", ""))
  {
    var line := "[a=b]";
    assert Span(line, IsPlain) == 2 by { assert IsPlain(line[0]) && IsPlain(line[1]) && !IsPlain(line[2]); }
    var rest := line[3..];
    assert rest == "b]";
    assert Span(rest, IsPlain) == 2 by { assert IsPlain(rest[0]) && IsPlain(rest[1]); }
    assert rest[..2] == "b]" && rest[2..] == [];
    assert line[..2] == "[a";
    TrimOfTrimmed("[a");
    TrimOfTrimmed("b]");
    TrimOfTrimmed([]);
  }

  /**
   * A key/value line under a header stores its whole entry, comment included,
   * replacing an earlier entry with the same key; nothing else changes.
   */
  lemma EntryLineReplaces(st: ParseState, raw: string, t: string, k: string)
    requires st.current != []
    requires Trim(raw) != [] && !IsCommentLine(Trim(raw)) && ParseSectionLine(Trim(raw)).None?
    requires ParseKeyValueLine(Trim(raw)).Some?
    ensures var kv := ParseKeyValueLine(Trim(raw)).value;
            Lookup(Step(st, raw).sections, t, k) == if t == st.current && k == kv.key then Some(kv) else Lookup(st.sections, t, k)
  {
    InsertEntryLookup(st.sections, st.current, ParseKeyValueLine(Trim(raw)).value, t, k);
  }

  /**
   * A header naming a section that already exists merges what follows into
   * it: an entry after a repeated header adds no section.
   */
  lemma RepeatedHeaderMerges(st: ParseState, name: string, raw: string)
    requires IsValidSectionName(name) && name in Names(st.sections)
    requires Trim(raw) != [] && !IsCommentLine(Trim(raw)) && ParseSectionLine(Trim(raw)).None?
    requires ParseKeyValueLine(Trim(raw)).Some?
    ensures Names(ParseFrom(st, [HeaderLine(name), raw]).sections) == Names(st.sections)
    ensures var kv := ParseKeyValueLine(Trim(raw)).value;
            Lookup(ParseFrom(st, [HeaderLine(name), raw]).sections, name, kv.key) == Some(kv)
  {
    HeaderLineParses(name);
    HeaderCreatesNoSection(st, HeaderLine(name));
    var lines := [HeaderLine(name), raw];
    var first := [HeaderLine(name)];
    assert lines[..1] == first && first[..0] == [];
    assert ParseFrom(st, first) == Step(st, HeaderLine(name));
    var mid := ParseState(name, st.sections);
    assert ParseFrom(st, lines) == Step(ParseFrom(st, first), raw);
    var kv := ParseKeyValueLine(Trim(raw)).value;
    InsertEntryNames(st.sections, name, kv);
    InsertEntryLookup(st.sections, name, kv, name, kv.key);
  }
}
