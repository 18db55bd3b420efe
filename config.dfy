/**
 * `Config`: one INI file held in memory.  The methods change the section list
 * in place, walking it as the original loops do, and each one is proved to
 * leave exactly the store that the matching function of IniStore, IniParse or
 * IniSerialize describes.  File access is replaced by parameters: the text of
 * the file (None when it cannot be opened), whether creating a missing file
 * succeeds, and whether a write succeeds.
 */
module IniConfig {
  import opened IniText
  import opened IniNumbers
  import opened IniStore
  import opened IniParse
  import opened IniSerialize

  class Config {
    /** The path ReadFile was given; empty before ReadFile. */
    var file: string
    /** The sections, in file order. */
    var sections: seq<Section>
    /** The text UpdateFile last wrote to the file, if any. */
    var written: Option<string>

    /** The class invariant: no two sections share a name, no two entries of a section a key. */
    ghost predicate Valid()
      reads this
    {
      Distinct(sections)
    }

    constructor ()
      ensures file == [] && sections == [] && written == None
      ensures Valid()
    {
      file := [];
      sections := [];
      written := None;
    }

    /**
     * ReadFile: a file that cannot be opened is created (the result says
     * whether that worked) and adds nothing; otherwise every line is trimmed
     * and classified, and key/value lines under a recognised header go into
     * the store.  Calling it twice, or with an empty path, is a programming
     * error in the original.
     */
    method ReadFile(path: string, content: Option<string>, createOk: bool) returns (ok: bool)
      requires path != [] && file == [] && Valid()
      modifies this`file, this`sections
      ensures Valid()
      ensures file == path
      ensures content.None? ==> ok == createOk && sections == old(sections)
      ensures content.Some? ==> ok && sections == ParseFrom(ParseState([], old(sections)), GetLines(content.value)).sections
      ensures content.Some? && old(sections) == [] ==> sections == Parse(GetLines(content.value))
    {
      file := path;
      if content.None? {
        return createOk;
      }
      var lines := GetLines(content.value);
      var current: string := [];
      var i := 0;
      while i < |lines|
        invariant 0 <= i <= |lines| && file == path && Valid()
        invariant ParseState(current, sections) == ParseFrom(ParseState([], old(sections)), lines[..i])
      {
        assert lines[..i + 1][..i] == lines[..i];
        var line := TrimLeftRightSpace(lines[i]);
        if line == [] || IsCommentLine(line) {
        } else {
          var header := ParseSectionLine(line);
          if header.Some? {
            current := header.value;
          } else if current != [] {
            var kv := ParseKeyValueLine(line);
            if kv.Some? {
              InsertKeyValue(kv.value, current);
            }
          }
        }
        i := i + 1;
      }
      assert lines[..|lines|] == lines;
      assert sections == ParseFrom(ParseState([], old(sections)), GetLines(content.value)).sections;
      return true;
    }

    /** InsertKeyValue: overwrite the entry with the same key, or append to the section, or append a new section. */
    method InsertKeyValue(kv: KeyValue, s: string)
      requires Valid()
      modifies this`sections
      ensures Valid()
      ensures sections == InsertEntry(old(sections), s, kv)
    {
      var idx := FindSection(sections, s);
      if idx.None? {
        sections := sections + [Section(s, [kv])];
      } else {
        var i := idx.value;
        var es := sections[i].entries;
        var j := FindKey(es, kv.key);
        if j.None? {
          es := es + [kv];
        } else {
          es := es[j.value := kv];
        }
        sections := sections[i := Section(s, es)];
      }
      InsertEntryDistinct(old(sections), s, kv);
    }

    /**
     * UpdateFile: write GetConfigString's text to the file; `writeOk` says
     * whether the file could be opened for writing.
     */
    method UpdateFile(writeOk: bool) returns (ok: bool)
      requires file != [] && Valid()
      modifies this`written
      ensures Valid()
      ensures ok == writeOk
      ensures written == if ok then Some(ConfigText(sections)) else old(written)
    {
      var text := GetConfigString();
      if !writeOk {
        return false;
      }
      written := Some(text);
      return true;
    }

    /**
     * GetConfigString: each section as `[name]`, then one `key=value` line per
     * entry with two tabs and the comment when there is one, then an empty line.
     */
    method GetConfigString() returns (text: string)
      ensures text == ConfigText(sections)
    {
      var c := sections;
      text := [];
      var i := 0;
      while i < |c|
        invariant 0 <= i <= |c|
        invariant text == ConfigText(c[..i])
      {
        var part := SectionString(c[i]);
        assert c[..i + 1][..i] == c[..i];
        text := text + part;
        i := i + 1;
      }
      assert c[..|c|] == c;
    }

    /** The inner loop of GetConfigString: the text of one section. */
    method SectionString(sec: Section) returns (text: string)
      ensures text == SectionText(sec)
    {
      var head := HeaderLine(sec.name) + "\n";
      text := "[" + sec.name + "]\n";
      var j := 0;
      while j < |sec.entries|
        invariant 0 <= j <= |sec.entries|
        invariant text == head + EntriesText(sec.entries[..j])
      {
        var kv := sec.entries[j];
        var line := kv.key + "=" + kv.value;
        if kv.comment != [] {
          line := line + "\t\t" + kv.comment;
        }
        assert line == EntryLine(kv);
        EntriesTextSnoc(head, text, sec.entries, j);
        text := text + line + "\n";
        j := j + 1;
      }
      assert sec.entries[..|sec.entries|] == sec.entries;
      text := text + "\n";
    }

    /**
     * SetValue: rejected names change nothing; otherwise the comment is
     * normalised and the entry is updated through the pointer FindKeyValue
     * returns, or inserted when there is none.
     */
    method SetValue(s: string, k: string, v: string, comment: string, replace: bool) returns (ok: bool)
      requires Valid()
      modifies this`sections
      ensures Valid()
      ensures ok == SetValueAccepts(s, k)
      ensures sections == IniStore.SetValue(old(sections), s, k, v, comment, replace)
    {
      if !IsValidSectionName(s) || !IsValidKeyName(k) {
        return false;
      }
      var note := TrimLeftRightSpace(comment);
      if note != [] && note[0] != ';' && note[0] != '#' {
        note := "# " + note;
      }
      var idx := FindSection(sections, s);
      var found := if idx.Some? then FindKey(sections[idx.value].entries, k) else None;
      if found.None? {
        InsertKeyValue(KeyValue(k, v, note), s);
      } else {
        var i := idx.value;
        var j := found.value;
        var prev := sections[i].entries[j];
        var kv := KeyValue(k, v, if replace || note != [] then note else prev.comment);
        sections := sections[i := Section(s, sections[i].entries[j := kv])];
      }
      SetValueDistinct(old(sections), s, k, v, comment, replace);
      return true;
    }

    /** The numeric SetValue: the number is stored as the decimal text `std::to_string` gives. */
    method SetNumber(s: string, k: string, n: int, comment: string, replace: bool) returns (ok: bool)
      requires Valid()
      modifies this`sections
      ensures Valid()
      ensures ok == SetValueAccepts(s, k)
      ensures sections == IniStore.SetValue(old(sections), s, k, IntToString(n), comment, replace)
    {
      ok := SetValue(s, k, IntToString(n), comment, replace);
    }

    /** GetValue for text: the stored value when there is a non-empty one, the default otherwise. */
    method GetValue(default: string, s: string, k: string) returns (r: string)
      ensures r == IniStore.GetValue(sections, default, s, k)
    {
      var kv := Lookup(sections, s, k);
      r := if kv.Some? && kv.value.value != [] then kv.value.value else default;
    }

    /** GetValue for integers: the default unless the stored text is a whole base-0 number. */
    method GetNumber(default: int, s: string, k: string) returns (r: int)
      ensures r == GetValueInt(sections, default, s, k)
    {
      var text := GetValue([], s, k);
      if text == [] {
        return default;
      }
      var n := StrToLong(text);
      r := if n.Some? then n.value else default;
    }

    /** GetSection: a copy of the entries of section `s`, empty when there is none. */
    method GetSection(s: string) returns (r: seq<KeyValue>)
      ensures r == IniStore.GetSection(sections, s)
    {
      var idx := FindSection(sections, s);
      r := if idx.Some? then sections[idx.value].entries else [];
    }

    /**
     * DeleteKey: erase the first entry `k` of the first section `s`, then
     * write the file when asked to; the result is `!updateFile || UpdateFile()`.
     */
    method DeleteKey(s: string, k: string, updateFile: bool, writeOk: bool) returns (ok: bool)
      requires Valid() && (updateFile ==> file != [])
      modifies this`sections, this`written
      ensures Valid()
      ensures sections == RemoveKey(old(sections), s, k)
      ensures ok == (!updateFile || writeOk)
      ensures written == if updateFile && writeOk then Some(ConfigText(sections)) else old(written)
    {
      var i := 0;
      while i < |sections| && sections[i].name != s
        invariant 0 <= i <= |sections|
        invariant forall q :: 0 <= q < i ==> sections[q].name != s
      {
        i := i + 1;
      }
      FirstSectionUnique(sections, s, FindSection(sections, s), if i < |sections| then Some(i) else None);
      if i < |sections| {
        var es := sections[i].entries;
        var j := 0;
        while j < |es| && es[j].key != k
          invariant 0 <= j <= |es|
          invariant forall q :: 0 <= q < j ==> es[q].key != k
        {
          j := j + 1;
        }
        FirstKeyUnique(es, k, FindKey(es, k), if j < |es| then Some(j) else None);
        if j < |es| {
          sections := sections[i := Section(sections[i].name, es[..j] + es[j + 1..])];
        }
      }
      RemoveKeyDistinct(old(sections), s, k);
      ok := true;
      if updateFile {
        ok := UpdateFile(writeOk);
      }
    }

    /**
     * DeleteSection: erase the first section `s`, then write the file when
     * asked to; the result is `!updateFile || UpdateFile()`.
     */
    method DeleteSection(s: string, updateFile: bool, writeOk: bool) returns (ok: bool)
      requires Valid() && (updateFile ==> file != [])
      modifies this`sections, this`written
      ensures Valid()
      ensures sections == RemoveSection(old(sections), s)
      ensures ok == (!updateFile || writeOk)
      ensures written == if updateFile && writeOk then Some(ConfigText(sections)) else old(written)
    {
      var i := 0;
      while i < |sections| && sections[i].name != s
        invariant 0 <= i <= |sections|
        invariant forall q :: 0 <= q < i ==> sections[q].name != s
      {
        i := i + 1;
      }
      FirstSectionUnique(sections, s, FindSection(sections, s), if i < |sections| then Some(i) else None);
      if i < |sections| {
        sections := sections[..i] + sections[i + 1..];
      }
      RemoveSectionDistinct(old(sections), s);
      ok := true;
      if updateFile {
        ok := UpdateFile(writeOk);
      }
    }
  }
}
