/**
 * GetConfigString as a function, and what reading its text back gives: every
 * store ReadFile can produce, and every store valid SetValue calls build from
 * it, is written as text that reads back as the same store.
 */
module IniSerialize {
  import opened IniText
  import opened IniStore
  import opened IniParse

  /** The entry lines of a section: `key=value`, then two tabs and the comment when there is one. */
  function EntriesText(es: seq<KeyValue>): (r: string)
    ensures r == JoinLines(EntryLines(es))
  {
    if es == [] then ""
    else
      var init := es[..|es| - 1];
      var last := EntryLine(es[|es| - 1]);
      assert EntryLines(es) == EntryLines(init) + [last];
      JoinLinesAppend(EntryLines(init), [last]);
      assert JoinLines([last]) == last + "\n" + JoinLines([]);
      EntriesText(init) + last + "\n"
  }

  /** A section as GetConfigString writes it: `[name]`, its entry lines, then an empty line. */
  function SectionText(sec: Section): (r: string)
    ensures r == JoinLines(SectionLines(sec))
  {
    var h := HeaderLine(sec.name);
    var e := EntryLines(sec.entries);
    JoinLinesAppend([h] + e, [""]);
    JoinLinesAppend([h], e);
    assert JoinLines([h]) == h + "\n" + JoinLines([]);
    assert JoinLines([""]) == "" + "\n" + JoinLines([]);
    h + "\n" + EntriesText(sec.entries) + "\n"
  }

  /** GetConfigString: the sections in order. */
  function ConfigText(c: seq<Section>): (r: string)
    ensures r == JoinLines(ConfigLines(c))
  {
    if c == [] then ""
    else
      JoinLinesAppend(ConfigLines(c[..|c| - 1]), SectionLines(c[|c| - 1]));
      ConfigText(c[..|c| - 1]) + SectionText(c[|c| - 1])
  }

  function EntryLines(es: seq<KeyValue>): (r: seq<string>)
    ensures |r| == |es| && forall i :: 0 <= i < |es| ==> r[i] == EntryLine(es[i])
  {
    seq(|es|, i requires 0 <= i < |es| => EntryLine(es[i]))
  }

  function SectionLines(sec: Section): seq<string>
  {
    [HeaderLine(sec.name)] + EntryLines(sec.entries) + [""]
  }

  /** The lines of GetConfigString's text. */
  function ConfigLines(c: seq<Section>): seq<string>
  {
    if c == [] then [] else ConfigLines(c[..|c| - 1]) + SectionLines(c[|c| - 1])
  }

  // ---------------------------------------------------------------------------
  // From text to lines
  // ---------------------------------------------------------------------------

  /** A valid section name holds no line feed. */
  lemma ValidNameNoNewline(name: string)
    requires IsValidSectionName(name)
    ensures NoNewline(HeaderLine(name))
  {
    assert forall i :: 0 <= i < |name| ==> IsSectionChar(name[i]);
  }

  /** An entry line of a scanned entry holds no line feed. */
  lemma EntryLineNoNewline(kv: KeyValue)
    requires EntryOk(kv)
    ensures NoNewline(EntryLine(kv))
  {
    assert forall i :: 0 <= i < |kv.comment| ==> IsNotLineBreak(kv.comment[i]);
  }

  lemma SectionLinesNoNewline(sec: Section)
    requires IsValidSectionName(sec.name) && forall j :: 0 <= j < |sec.entries| ==> EntryOk(sec.entries[j])
    ensures forall i :: 0 <= i < |SectionLines(sec)| ==> NoNewline(SectionLines(sec)[i])
  {
    ValidNameNoNewline(sec.name);
    forall j | 0 <= j < |sec.entries| ensures NoNewline(EntryLine(sec.entries[j])) {
      EntryLineNoNewline(sec.entries[j]);
    }
  }

  /** Valid section names and scanned entries: what it takes for every written line to be one line. */
  predicate Writable(c: seq<Section>)
  {
    && (forall i :: 0 <= i < |c| ==> IsValidSectionName(c[i].name))
    && (forall i, j :: 0 <= i < |c| && 0 <= j < |c[i].entries| ==> EntryOk(c[i].entries[j]))
  }

  lemma {:induction false} ConfigLinesNoNewline(c: seq<Section>)
    requires Writable(c)
    ensures forall i :: 0 <= i < |ConfigLines(c)| ==> NoNewline(ConfigLines(c)[i])
    decreases |c|
  {
    if c != [] {
      var init := c[..|c| - 1];
      assert forall i :: 0 <= i < |init| ==> init[i] == c[i];
      ConfigLinesNoNewline(init);
      SectionLinesNoNewline(c[|c| - 1]);
    }
  }

  /** Dropping the last section keeps a store reloadable. */
  lemma ReloadablePrefix(c: seq<Section>)
    requires Reloadable(c) && c != []
    ensures Reloadable(c[..|c| - 1])
    ensures c[|c| - 1].name !in Names(c[..|c| - 1])
  {
    var init := c[..|c| - 1];
    assert forall i :: 0 <= i < |init| ==> init[i] == c[i];
  }

  /** The last section of a reloadable store meets what SectionRead needs. */
  lemma LastSectionOk(c: seq<Section>, sec: Section)
    requires Reloadable(c) && c != [] && sec == c[|c| - 1]
    ensures IsValidSectionName(sec.name) && sec.entries != [] && UniqueKeys(sec.entries)
    ensures forall n :: 0 <= n < |sec.entries| ==> EntryOk(sec.entries[n])
  {
  }

  // ---------------------------------------------------------------------------
  // From lines to sections
  // ---------------------------------------------------------------------------

  /** A recognised header holds no `=`. */
  lemma HeaderHasNoEquals(line: string)
    requires ParseSectionLine(line).Some?
    ensures '=' !in line
  {
    var name := ParseSectionLine(line).value;
    var a, b := SectionLineShape(line);
    assert '=' !in a && '=' !in b;
    assert '=' !in name by {
      assert forall i :: 0 <= i < |name| ==> IsSectionChar(name[i]);
    }
  }

  /** The loop reads an entry line written for a scanned entry as that entry. */
  lemma EntryLineReads(st: ParseState, kv: KeyValue)
    requires EntryOk(kv) && st.current != []
    ensures Step(st, EntryLine(kv)) == ParseState(st.current, InsertEntry(st.sections, st.current, kv))
  {
    var line := EntryLine(kv);
    EntryLineIsTrimmed(kv);
    TrimOfTrimmed(line);
    assert line[|kv.key|] == '=';
    if ParseSectionLine(line).Some? {
      HeaderHasNoEquals(line);
    }
    EntryLineRoundTrip(kv);
  }

  /** After its header and the first `j` entry lines, a section holds its first `j` entries. */
  lemma {:induction false} EntriesRead(pre: seq<Section>, sec: Section, j: nat)
    requires IsValidSectionName(sec.name) && sec.name !in Names(pre)
    requires UniqueKeys(sec.entries) && forall n :: 0 <= n < |sec.entries| ==> EntryOk(sec.entries[n])
    requires j <= |sec.entries|
    ensures ParseFrom(ParseState(sec.name, pre), EntryLines(sec.entries)[..j])
         == ParseState(sec.name, if j == 0 then pre else pre + [Section(sec.name, sec.entries[..j])])
    decreases j
  {
    if j > 0 {
      var es := sec.entries;
      var lines := EntryLines(es);
      var st0 := ParseState(sec.name, pre);
      var prev := if j == 1 then pre else pre + [Section(sec.name, es[..j - 1])];
      calc {
        ParseFrom(st0, lines[..j]);
        { ParseFromPrefix(st0, lines, j); }
        Step(ParseFrom(st0, lines[..j - 1]), lines[j - 1]);
        { EntriesRead(pre, sec, j - 1); }
        Step(ParseState(sec.name, prev), EntryLine(es[j - 1]));
        { EntryLineReads(ParseState(sec.name, prev), es[j - 1]); }
        ParseState(sec.name, InsertEntry(prev, sec.name, es[j - 1]));
        { EntryAppended(pre, sec.name, es, j); }
        ParseState(sec.name, pre + [Section(sec.name, es[..j])]);
      }
    }
  }

  /** Running the loop over one more line of `lines` is one more Step. */
  lemma ParseFromPrefix(st: ParseState, lines: seq<string>, j: nat)
    requires 0 < j <= |lines|
    ensures ParseFrom(st, lines[..j]) == Step(ParseFrom(st, lines[..j - 1]), lines[j - 1])
  {
    assert lines[..j][..j - 1] == lines[..j - 1];
  }

  /** Inserting entry `j - 1` of a key-unique list after the first `j - 1` gives the first `j`. */
  lemma EntryAppended(pre: seq<Section>, name: string, es: seq<KeyValue>, j: nat)
    requires name !in Names(pre) && UniqueKeys(es) && 0 < j <= |es|
    ensures InsertEntry(if j == 1 then pre else pre + [Section(name, es[..j - 1])], name, es[j - 1])
         == pre + [Section(name, es[..j])]
  {
    var kv := es[j - 1];
    if j == 1 {
      FirstEntryRead(pre, name, kv);
      assert es[..1] == [kv];
    } else {
      assert kv.key !in Keys(es[..j - 1]) by {
        assert forall n :: 0 <= n < j - 1 ==> es[..j - 1][n].key == es[n].key;
      }
      NextEntryRead(pre, name, es[..j - 1], kv);
      assert es[..j - 1] + [kv] == es[..j];
    }
  }

  /** The first entry under a new header creates its section at the end. */
  lemma FirstEntryRead(pre: seq<Section>, name: string, kv: KeyValue)
    requires name !in Names(pre)
    ensures InsertEntry(pre, name, kv) == pre + [Section(name, [kv])]
  {
    FirstSectionUnique(pre, name, FindSection(pre, name), None);
  }

  /** A further entry with a new key is appended to the last section. */
  lemma NextEntryRead(pre: seq<Section>, name: string, es: seq<KeyValue>, kv: KeyValue)
    requires name !in Names(pre) && kv.key !in Keys(es)
    ensures InsertEntry(pre + [Section(name, es)], name, kv) == pre + [Section(name, es + [kv])]
  {
    var c := pre + [Section(name, es)];
    FirstSectionUnique(c, name, FindSection(c, name), Some(|pre|));
    FirstKeyUnique(es, kv.key, FindKey(es, kv.key), None);
    assert c[|pre| := Section(name, es + [kv])] == pre + [Section(name, es + [kv])];
  }

  /** The lines of one section read as that section, appended after the ones before it. */
  lemma SectionRead(pre: seq<Section>, cur: string, sec: Section)
    requires IsValidSectionName(sec.name) && sec.name !in Names(pre) && sec.entries != []
    requires UniqueKeys(sec.entries) && forall n :: 0 <= n < |sec.entries| ==> EntryOk(sec.entries[n])
    ensures ParseFrom(ParseState(cur, pre), SectionLines(sec)) == ParseState(sec.name, pre + [sec])
  {
    var h := HeaderLine(sec.name);
    var e := EntryLines(sec.entries);
    var st0 := ParseState(cur, pre);
    HeaderLineParses(sec.name);
    HeaderCreatesNoSection(st0, h);
    assert [h][..0] == [];
    assert ParseFrom(st0, [h]) == ParseState(sec.name, pre);
    EntriesRead(pre, sec, |sec.entries|);
    assert e[..|sec.entries|] == e;
    assert sec.entries[..|sec.entries|] == sec.entries;
    ParseFromAppend(st0, [h], e);
    ParseFromAppend(st0, [h] + e, [""]);
    var st1 := ParseState(sec.name, pre + [sec]);
    assert [""][..0] == [];
    assert Trim("") == "";
    assert ParseFrom(st1, [""]) == st1;
  }

  /** The lines of a reloadable store read as that store. */
  lemma {:induction false} ConfigLinesRead(c: seq<Section>)
    requires Reloadable(c)
    ensures ParseFrom(Start(), ConfigLines(c)) == ParseState(if c == [] then "" else c[|c| - 1].name, c)
    decreases |c|
  {
    if c != [] {
      var init := c[..|c| - 1];
      var sec := c[|c| - 1];
      ReloadablePrefix(c);
      LastSectionOk(c, sec);
      ConfigLinesRead(init);
      LastSectionRead(c, init, sec);
    }
  }

  /** The step of ConfigLinesRead: the last section read after the others. */
  lemma LastSectionRead(c: seq<Section>, init: seq<Section>, sec: Section)
    requires c != [] && init == c[..|c| - 1] && sec == c[|c| - 1]
    requires ParseFrom(Start(), ConfigLines(init)) == ParseState(if init == [] then "" else init[|init| - 1].name, init)
    requires IsValidSectionName(sec.name) && sec.name !in Names(init) && sec.entries != []
    requires UniqueKeys(sec.entries) && forall n :: 0 <= n < |sec.entries| ==> EntryOk(sec.entries[n])
    ensures ParseFrom(Start(), ConfigLines(c)) == ParseState(sec.name, c)
  {
    var cur := if init == [] then "" else init[|init| - 1].name;
    assert c == init + [sec];
    SectionAfter(init, sec, cur);
  }

  /** The lines of one more section, after a store's lines, read as that section appended. */
  lemma SectionAfter(init: seq<Section>, sec: Section, cur: string)
    requires ParseFrom(Start(), ConfigLines(init)) == ParseState(cur, init)
    requires IsValidSectionName(sec.name) && sec.name !in Names(init) && sec.entries != []
    requires UniqueKeys(sec.entries) && forall n :: 0 <= n < |sec.entries| ==> EntryOk(sec.entries[n])
    ensures ParseFrom(Start(), ConfigLines(init + [sec])) == ParseState(sec.name, init + [sec])
  {
    ConfigLinesSnoc(init, sec);
    ParseFromAppend(Start(), ConfigLines(init), SectionLines(sec));
    SectionRead(init, cur, sec);
  }

  /** One more section adds its lines at the end. */
  lemma ConfigLinesSnoc(init: seq<Section>, sec: Section)
    ensures ConfigLines(init + [sec]) == ConfigLines(init) + SectionLines(sec)
  {
    var c := init + [sec];
    assert c[..|c| - 1] == init;
  }

  // ---------------------------------------------------------------------------
  // Round trips
  // ---------------------------------------------------------------------------

  /** Reading back the text GetConfigString writes for a reloadable store gives the same store. */
  lemma RoundTrip(c: seq<Section>)
    requires Reloadable(c)
    ensures Parse(GetLines(ConfigText(c))) == c
  {
    ConfigLinesNoNewline(c);
    GetLinesJoinLines(ConfigLines(c));
    ConfigLinesRead(c);
  }

  /** Read, write, read again: the second read gives what the first one gave. */
  lemma RereadIsStable(text: string)
    ensures Parse(GetLines(ConfigText(Parse(GetLines(text))))) == Parse(GetLines(text))
  {
    RoundTrip(Parse(GetLines(text)));
  }

  /**
   * A successful SetValue keeps a store reloadable when the value holds no `=`,
   * `#`, `;` or line feed and no surrounding white space, and the comment holds
   * no line break; so its text reads back as the same store.
   */
  lemma SetValueReloadable(c: seq<Section>, s: string, k: string, v: string, comment: string, replace: bool)
    requires Reloadable(c) && SetValueAccepts(s, k)
    requires AllPlain(v) && IsTrimmed(v) && NoNewline(v) && NoLineBreak(comment)
    ensures Reloadable(SetValue(c, s, k, v, comment, replace))
    ensures Parse(GetLines(ConfigText(SetValue(c, s, k, v, comment, replace)))) == SetValue(c, s, k, v, comment, replace)
  {
    var note := StoredComment(c, s, k, comment, replace);
    SetValueEntryOk(c, s, k, v, comment, replace);
    InsertEntryReloadable(c, s, KeyValue(k, v, note));
    RoundTrip(SetValue(c, s, k, v, comment, replace));
  }

  lemma SetValueEntryOk(c: seq<Section>, s: string, k: string, v: string, comment: string, replace: bool)
    requires Reloadable(c) && SetValueAccepts(s, k)
    requires AllPlain(v) && IsTrimmed(v) && NoNewline(v) && NoLineBreak(comment)
    ensures EntryOk(KeyValue(k, v, StoredComment(c, s, k, comment, replace)))
  {
    NormalizeCommentNoLineBreak(comment);
    if Lookup(c, s, k).Some? {
      StoredEntryOk(c, s, k);
    }
  }

  /** Every entry a lookup finds in a reloadable store has the scanner's shape. */
  lemma StoredEntryOk(c: seq<Section>, s: string, k: string)
    requires Reloadable(c) && Lookup(c, s, k).Some?
    ensures EntryOk(Lookup(c, s, k).value)
  {
    var i := FindSection(c, s).value;
    var j := FindKey(c[i].entries, k).value;
    assert Lookup(c, s, k).value == c[i].entries[j];
  }

  /** The normalised comment of a comment without line breaks has none either. */
  lemma NormalizeCommentNoLineBreak(comment: string)
    requires NoLineBreak(comment)
    ensures NoLineBreak(NormalizeComment(comment))
  {
    TrimKeeps(comment, IsNotLineBreak);
    var t := Trim(comment);
    if NormalizeComment(comment) != t {
      assert forall i :: 2 <= i < |"# " + t| ==> ("# " + t)[i] == t[i - 2];
    }
  }

  /** DeleteSection keeps a store reloadable, so its text reads back as the same store. */
  lemma RemoveSectionReloadable(c: seq<Section>, s: string)
    requires Reloadable(c)
    ensures Reloadable(RemoveSection(c, s))
    ensures Parse(GetLines(ConfigText(RemoveSection(c, s)))) == RemoveSection(c, s)
  {
    if s in Names(c) {
      EraseReloadable(c, FindSection(c, s).value);
    }
    RoundTrip(RemoveSection(c, s));
  }

  lemma EraseReloadable(c: seq<Section>, i: nat)
    requires Reloadable(c) && i < |c|
    ensures Reloadable(c[..i] + c[i + 1..])
  {
    var r := c[..i] + c[i + 1..];
    assert forall q :: 0 <= q < |r| ==> r[q] == c[if q < i then q else q + 1];
  }

  /**
   * DeleteKey keeps a store reloadable unless it empties the section; an
   * emptied section is written as a lone header, which reads back as nothing.
   */
  lemma RemoveKeyReloadable(c: seq<Section>, s: string, k: string)
    requires Reloadable(c) && GetSection(RemoveKey(c, s, k), s) != []
    ensures Reloadable(RemoveKey(c, s, k))
    ensures Parse(GetLines(ConfigText(RemoveKey(c, s, k)))) == RemoveKey(c, s, k)
  {
    if FindSection(c, s).Some? && FindKey(c[FindSection(c, s).value].entries, k).Some? {
      var i := FindSection(c, s).value;
      var r := RemoveKey(c, s, k);
      assert Names(r) == Names(c);
      SameNamesSameFind(r, c, s);
      EraseEntryReloadable(c, i, FindKey(c[i].entries, k).value);
    }
    RoundTrip(RemoveKey(c, s, k));
  }

  lemma EraseEntryReloadable(c: seq<Section>, i: nat, j: nat)
    requires Reloadable(c) && i < |c| && j < |c[i].entries| && |c[i].entries| > 1
    ensures Reloadable(c[i := Section(c[i].name, c[i].entries[..j] + c[i].entries[j + 1..])])
  {
    var es := c[i].entries;
    var es2 := es[..j] + es[j + 1..];
    var r := c[i := Section(c[i].name, es2)];
    assert forall q :: 0 <= q < |es2| ==> es2[q] == es[if q < j then q else q + 1];
    assert UniqueKeys(es2);
    assert Names(r) == Names(c);
  }

  /**
   * A section DeleteKey leaves without entries is written as a lone header and
   * an empty line, and a header alone creates no section: reading the text
   * back gives the store without that section, as DeleteSection would leave it.
   */
  lemma EmptySectionDropped(c: seq<Section>, s: string, k: string)
    requires Reloadable(c) && s in Names(c) && GetSection(RemoveKey(c, s, k), s) == []
    ensures Parse(GetLines(ConfigText(RemoveKey(c, s, k)))) == RemoveSection(c, s)
  {
    var i := EmptiedShape(c, s, k);
    var pre := c[..i];
    var rest := c[i + 1..];
    var empty := Section(s, []);
    var r := RemoveKey(c, s, k);
    EraseReloadable(c, i);
    ReloadableAppendLeft(pre, rest);
    var head := ConfigLines(pre);
    var hdr := SectionLines(empty);
    var tail := ConfigLines(rest);
    ConfigLinesSnoc(pre, empty);
    ConfigLinesAppend(pre + [empty], rest);
    assert ConfigLines(r) == head + hdr + tail;
    WritableAfterEmptying(c, r, i);
    ConfigLinesNoNewline(r);
    GetLinesJoinLines(ConfigLines(r));
    ConfigLinesRead(pre);
    ParseFromAppend(Start(), head + hdr, tail);
    ParseFromAppend(Start(), head, hdr);
    LoneHeaderRead(ParseFrom(Start(), head), s);
    RestRead(pre, rest, s);
  }

  /** The store DeleteKey leaves when it empties section `s`: that section, now without entries, in place. */
  lemma EmptiedShape(c: seq<Section>, s: string, k: string) returns (i: nat)
    requires Reloadable(c) && s in Names(c) && GetSection(RemoveKey(c, s, k), s) == []
    ensures i < |c| && FindSection(c, s) == Some(i)
    ensures RemoveKey(c, s, k) == c[..i] + [Section(s, [])] + c[i + 1..]
    ensures RemoveSection(c, s) == c[..i] + c[i + 1..]
  {
    i := FindSection(c, s).value;
    assert c[i].entries != [];
    if k !in Keys(GetSection(c, s)) {
      RemoveKeyAbsent(c, s, k);
      assert false;
    }
    RemoveKeyErases(c, s, k);
    var r := RemoveKey(c, s, k);
    SameNamesSameFind(r, c, s);
    assert r[i] == Section(s, []);
    assert r == c[..i] + [Section(s, [])] + c[i + 1..];
  }

  /** Emptying a section keeps every name valid and every entry as the scanner makes it. */
  lemma WritableAfterEmptying(c: seq<Section>, r: seq<Section>, i: nat)
    requires Reloadable(c) && i < |c| && r == c[..i] + [Section(c[i].name, [])] + c[i + 1..]
    ensures Writable(r)
  {
    assert forall q :: 0 <= q < |r| && q != i ==> r[q] == c[q];
  }

  /** The first sections of a reloadable store form a reloadable store. */
  lemma ReloadableAppendLeft(a: seq<Section>, b: seq<Section>)
    requires Reloadable(a + b)
    ensures Reloadable(a)
  {
    var c := a + b;
    assert forall q :: 0 <= q < |a| ==> a[q] == c[q];
  }

  /** The lines of `a + b` are the lines of `a`, then those of `b`. */
  lemma {:induction false} ConfigLinesAppend(a: seq<Section>, b: seq<Section>)
    ensures ConfigLines(a + b) == ConfigLines(a) + ConfigLines(b)
    decreases |b|
  {
    if b == [] {
      assert a + b == a;
    } else {
      var init := b[..|b| - 1];
      var last := b[|b| - 1];
      assert a + b == (a + init) + [last];
      assert b == init + [last];
      ConfigLinesSnoc(a + init, last);
      ConfigLinesSnoc(init, last);
      ConfigLinesAppend(a, init);
    }
  }

  /** A header with no entry under it, then the empty line, only changes the current section. */
  lemma LoneHeaderRead(st: ParseState, s: string)
    requires IsValidSectionName(s)
    ensures ParseFrom(st, SectionLines(Section(s, []))) == ParseState(s, st.sections)
  {
    var h := HeaderLine(s);
    var lines := [h, ""];
    assert EntryLines([]) == [];
    assert SectionLines(Section(s, [])) == lines;
    HeaderLineParses(s);
    HeaderCreatesNoSection(st, h);
    assert lines[..1] == [h] && [h][..0] == [];
    assert ParseFrom(st, [h]) == Step(ParseFrom(st, []), h);
    assert ParseFrom(st, lines) == Step(ParseFrom(st, [h]), "");
    assert Trim("") == "";
  }

  /** After the lines of `pre`, the lines of `rest` read as `rest` appended, whatever the current section. */
  lemma RestRead(pre: seq<Section>, rest: seq<Section>, cur: string)
    requires Reloadable(pre + rest)
    ensures ParseFrom(ParseState(cur, pre), ConfigLines(rest)).sections == pre + rest
  {
    var e := pre + rest;
    var cur0 := if pre == [] then "" else pre[|pre| - 1].name;
    ReloadableAppendLeft(pre, rest);
    ConfigLinesRead(pre);
    ConfigLinesRead(e);
    ConfigLinesAppend(pre, rest);
    ParseFromThen(Start(), ConfigLines(pre), ConfigLines(rest), ParseState(cur0, pre));
    if rest != [] {
      assert rest[0] == e[|pre|];
      CurrentIrrelevant(cur, cur0, pre, rest);
    }
  }

  /** Once the loop has reached `m` after `a`, going on over `b` starts from `m`. */
  lemma ParseFromThen(st: ParseState, a: seq<string>, b: seq<string>, m: ParseState)
    requires ParseFrom(st, a) == m
    ensures ParseFrom(st, a + b) == ParseFrom(m, b)
  {
    ParseFromAppend(st, a, b);
  }

  /** The text of a store starts with a header, so the section current before it does not matter. */
  lemma CurrentIrrelevant(cur1: string, cur2: string, pre: seq<Section>, rest: seq<Section>)
    requires rest != [] && IsValidSectionName(rest[0].name)
    ensures ParseFrom(ParseState(cur1, pre), ConfigLines(rest)) == ParseFrom(ParseState(cur2, pre), ConfigLines(rest))
  {
    var h := HeaderLine(rest[0].name);
    var more := ConfigLinesHead(rest);
    HeaderLineParses(rest[0].name);
    HeaderCreatesNoSection(ParseState(cur1, pre), h);
    HeaderCreatesNoSection(ParseState(cur2, pre), h);
    OneLineThen(ParseState(cur1, pre), h, more);
    OneLineThen(ParseState(cur2, pre), h, more);
  }

  /** The first line of a store's text is the header of its first section. */
  lemma ConfigLinesHead(c: seq<Section>) returns (more: seq<string>)
    requires c != []
    ensures ConfigLines(c) == [HeaderLine(c[0].name)] + more
  {
    var sec := c[0];
    ConfigLinesSnoc([], sec);
    assert [] + [sec] == [sec];
    ConfigLinesAppend([sec], c[1..]);
    assert [sec] + c[1..] == c;
    more := EntryLines(sec.entries) + [""] + ConfigLines(c[1..]);
    assert ConfigLines([sec]) == [HeaderLine(sec.name)] + EntryLines(sec.entries) + [""];
  }

  /** Running the loop over a first line and then more lines is one Step, then the rest. */
  lemma OneLineThen(st: ParseState, h: string, more: seq<string>)
    ensures ParseFrom(st, [h] + more) == ParseFrom(Step(st, h), more)
  {
    assert [h][..0] == [];
    ParseFromThen(st, [h], more, Step(st, h));
  }

  /** One more entry line, as GetConfigString's inner loop appends it. */
  lemma EntriesTextSnoc(head: string, text: string, es: seq<KeyValue>, j: nat)
    requires j < |es| && text == head + EntriesText(es[..j])
    ensures text + EntryLine(es[j]) + "\n" == head + EntriesText(es[..j + 1])
  {
    assert es[..j + 1][..j] == es[..j];
    assert EntriesText(es[..j + 1]) == EntriesText(es[..j]) + EntryLine(es[j]) + "\n";
  }
}
