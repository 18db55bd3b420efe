/**
 * Character classes, trimming, name validation and the line scanners of the
 * INI store: everything the parser and the mutation API decide about a single
 * piece of text.  The two regular expressions of the store are written here as
 * hand-written scanners over the characters of the line.
 */
module IniText {

  datatype Option<T> = None | Some(value: T)

  /** One `key=value  comment` entry of a section. */
  datatype KeyValue = KeyValue(key: string, value: string, comment: string)

  // ---------------------------------------------------------------------------
  // Character classes
  // ---------------------------------------------------------------------------

  /** The characters TrimLeftRightSpace removes. */
  predicate IsTrimSpace(c: char) { c == ' ' || c == '\t' || c == '\n' || c == '\r' }

  /** `[\t ]` in the header grammar. */
  predicate IsBlank(c: char) { c == ' ' || c == '\t' }

  /** The characters that end a key or a value: `=`, `#` and `;`. */
  predicate IsSpecial(c: char) { c == '=' || c == '#' || c == ';' }

  predicate IsPlain(c: char) { !IsSpecial(c) }

  predicate IsLineBreak(c: char) { c == '\n' || c == '\r' }

  predicate IsNotNewline(c: char) { c != '\n' }

  /** `[A-Za-z_]`: the first character of a section or key name. */
  predicate IsNameStart(c: char) { ('A' <= c <= 'Z') || ('a' <= c <= 'z') || c == '_' }

  predicate IsDecimalDigit(c: char) { '0' <= c <= '9' }

  /** `[A-Za-z_0-9- ]`: the later characters of a section name. */
  predicate IsSectionChar(c: char) { IsNameStart(c) || IsDecimalDigit(c) || c == '-' || c == ' ' }

  /** `[\w_.]`: the later characters of a key name. */
  predicate IsKeyChar(c: char) { IsNameStart(c) || IsDecimalDigit(c) || c == '.' }

  predicate AllSpace(s: string) { forall i :: 0 <= i < |s| ==> IsTrimSpace(s[i]) }

  predicate AllBlank(s: string) { forall i :: 0 <= i < |s| ==> IsBlank(s[i]) }

  predicate AllPlain(s: string) { forall i :: 0 <= i < |s| ==> IsPlain(s[i]) }

  predicate IsNotLineBreak(c: char) { !IsLineBreak(c) }

  predicate NoLineBreak(s: string) { forall i :: 0 <= i < |s| ==> IsNotLineBreak(s[i]) }

  predicate NoNewline(s: string) { forall i :: 0 <= i < |s| ==> s[i] != '\n' }

  // ---------------------------------------------------------------------------
  // Scanning primitives
  // ---------------------------------------------------------------------------

  /** Length of the longest prefix of `s` whose characters all satisfy `p`. */
  function Span(s: string, p: char -> bool): (n: nat)
    ensures n <= |s|
    ensures forall i :: 0 <= i < n ==> p(s[i])
    ensures n < |s| ==> !p(s[n])
  {
    if s == [] || !p(s[0]) then 0 else 1 + Span(s[1..], p)
  }

  // ---------------------------------------------------------------------------
  // TrimLeftRightSpace
  // ---------------------------------------------------------------------------

  /** No leading and no trailing space, tab, line feed or carriage return. */
  predicate IsTrimmed(s: string)
  {
    s == [] || (!IsTrimSpace(s[0]) && !IsTrimSpace(s[|s| - 1]))
  }

  /** `s` without its leading white space: a suffix of `s` that starts with no white space. */
  function TrimLeft(s: string): (r: string)
    ensures |r| <= |s|
    ensures r == [] || !IsTrimSpace(r[0])
    ensures forall i :: 0 <= i < |s| - |r| ==> IsTrimSpace(s[i])
  {
    if s != [] && IsTrimSpace(s[0]) then TrimLeft(s[1..]) else s
  }

  /** `s` without its trailing white space: a prefix of `s` that ends with no white space. */
  function TrimRight(s: string): (r: string)
    ensures |r| <= |s|
    ensures r == [] || !IsTrimSpace(r[|r| - 1])
    ensures forall i :: |r| <= i < |s| ==> IsTrimSpace(s[i])
  {
    if s != [] && IsTrimSpace(s[|s| - 1]) then TrimRight(s[..|s| - 1]) else s
  }

  /** TrimLeftRightSpace: `s` without its leading and trailing white space. */
  function Trim(s: string): (r: string)
    ensures IsTrimmed(r)
  {
    TrimRightIsPrefix(TrimLeft(s));
    TrimRight(TrimLeft(s))
  }

  lemma {:induction false} TrimLeftSkips(a: string, x: string)
    requires AllSpace(a) && (x == [] || !IsTrimSpace(x[0]))
    ensures TrimLeft(a + x) == x
  {
    if a == [] {
      assert a + x == x;
    } else {
      assert (a + x)[0] == a[0];
      assert (a + x)[1..] == a[1..] + x;
      TrimLeftSkips(a[1..], x);
    }
  }

  lemma {:induction false} TrimRightSkips(x: string, b: string)
    requires AllSpace(b) && (x == [] || !IsTrimSpace(x[|x| - 1]))
    ensures TrimRight(x + b) == x
  {
    if b == [] {
      assert x + b == x;
    } else {
      assert (x + b)[|x + b| - 1] == b[|b| - 1];
      assert (x + b)[..|x + b| - 1] == x + b[..|b| - 1];
      TrimRightSkips(x, b[..|b| - 1]);
    }
  }

  lemma {:induction false} TrimLeftIsSuffix(s: string)
    ensures TrimLeft(s) == s[|s| - |TrimLeft(s)|..]
  {
    if s != [] && IsTrimSpace(s[0]) {
      TrimLeftIsSuffix(s[1..]);
      assert s[1..][|s| - 1 - |TrimLeft(s)|..] == s[|s| - |TrimLeft(s)|..];
    }
  }

  lemma {:induction false} TrimRightIsPrefix(s: string)
    ensures TrimRight(s) == s[..|TrimRight(s)|]
  {
    if s != [] && IsTrimSpace(s[|s| - 1]) {
      TrimRightIsPrefix(s[..|s| - 1]);
      assert s[..|s| - 1][..|TrimRight(s)|] == s[..|TrimRight(s)|];
    }
  }

  /** Every character of `Trim(s)` has a property that every character of `s` has. */
  lemma TrimKeeps(s: string, p: char -> bool)
    requires forall i :: 0 <= i < |s| ==> p(s[i])
    ensures forall i :: 0 <= i < |Trim(s)| ==> p(Trim(s)[i])
  {
    var l := TrimLeft(s);
    var lo := |s| - |l|;
    TrimLeftIsSuffix(s);
    TrimRightIsPrefix(l);
    forall i | 0 <= i < |Trim(s)|
      ensures p(Trim(s)[i])
    {
      assert Trim(s)[i] == l[i] == s[lo + i];
    }
  }

  /** Trimming `a + m + b` gives `m` when `a` and `b` are white space and `m` is trimmed. */
  lemma TrimUnique(a: string, m: string, b: string)
    requires AllSpace(a) && AllSpace(b) && IsTrimmed(m)
    ensures Trim(a + m + b) == m
  {
    if m == [] {
      assert AllSpace(a + b) by {
        assert forall i :: 0 <= i < |a| ==> (a + b)[i] == a[i];
        assert forall i :: |a| <= i < |a + b| ==> (a + b)[i] == b[i - |a|];
      }
      assert a + m + b == (a + b) + [];
      TrimLeftSkips(a + b, []);
    } else {
      assert a + m + b == a + (m + b);
      assert (m + b)[0] == m[0];
      TrimLeftSkips(a, m + b);
      TrimRightSkips(m, b);
    }
  }

  /** Trimming a trimmed string changes nothing. */
  lemma TrimOfTrimmed(m: string)
    requires IsTrimmed(m)
    ensures Trim(m) == m
  {
    TrimUnique([], m, []);
    assert [] + m + [] == m;
  }

  /** TrimLeftRightSpace is idempotent. */
  lemma TrimIdempotent(s: string)
    ensures Trim(Trim(s)) == Trim(s)
  {
    TrimOfTrimmed(Trim(s));
  }

  /** A string made only of white space trims to the empty string. */
  lemma TrimAllSpace(s: string)
    requires AllSpace(s)
    ensures Trim(s) == []
  {
    TrimUnique(s, [], []);
    assert s + [] + [] == s;
  }

  /**
   * A string that starts with a character other than white space trims to a
   * non-empty prefix of itself followed only by white space.
   */
  lemma TrimNonEmpty(s: string)
    requires s != [] && !IsTrimSpace(s[0])
    ensures Trim(s) != [] && Trim(s) == s[..|Trim(s)|]
    ensures forall i :: |Trim(s)| <= i < |s| ==> IsTrimSpace(s[i])
  {
    assert TrimLeft(s) == s;
    TrimRightIsPrefix(s);
  }

  /**
   * TrimLeftRightSpace: one pointer moves right over the leading white space,
   * a second one moves left over the trailing white space, and the text between
   * them is the result.
   */
  method TrimLeftRightSpace(src: string) returns (r: string)
    ensures r == Trim(src)
  {
    if src == [] {
      return src;
    }
    var left := 0;
    var right := |src|;
    while left < right && IsTrimSpace(src[left])
      invariant 0 <= left <= right == |src|
      invariant TrimLeft(src[left..]) == TrimLeft(src)
    {
      TrimLeftStep(src, left);
      left := left + 1;
    }
    TrimLeftStop(src, left);
    right := right - 1;
    while left <= right && IsTrimSpace(src[right])
      invariant left - 1 <= right < |src|
      invariant TrimRight(src[left..right + 1]) == TrimRight(src[left..])
    {
      TrimRightStep(src, left, right);
      right := right - 1;
    }
    r := src[left..right + 1];
    TrimRightStop(src, left, right + 1);
  }

  lemma TrimLeftStep(s: string, i: nat)
    requires i < |s| && IsTrimSpace(s[i])
    ensures TrimLeft(s[i..]) == TrimLeft(s[i + 1..])
  {
    assert s[i..][1..] == s[i + 1..];
  }

  lemma TrimLeftStop(s: string, i: nat)
    requires i <= |s| && (i == |s| || !IsTrimSpace(s[i]))
    ensures TrimLeft(s[i..]) == s[i..] && s[i..|s|] == s[i..]
  {
  }

  lemma TrimRightStep(s: string, lo: nat, hi: nat)
    requires lo <= hi < |s| && IsTrimSpace(s[hi])
    ensures TrimRight(s[lo..hi + 1]) == TrimRight(s[lo..hi])
  {
    assert s[lo..hi + 1][..hi - lo] == s[lo..hi];
  }

  lemma TrimRightStop(s: string, lo: nat, hi: nat)
    requires lo <= hi <= |s| && (hi == lo || !IsTrimSpace(s[hi - 1]))
    ensures TrimRight(s[lo..hi]) == s[lo..hi]
  {
  }

  // ---------------------------------------------------------------------------
  // Name validation (the names SetValue accepts)
  // ---------------------------------------------------------------------------

  /**
   * IsValidSectionString: not empty, does not end in a space, starts with
   * `[A-Za-z_]` and continues with `[A-Za-z_0-9- ]`.
   */
  predicate IsValidSectionName(s: string)
    ensures IsValidSectionName(s) ==> IsTrimmed(s) && NoNewline(s)
  {
    s != [] && s[|s| - 1] != ' ' && IsNameStart(s[0])
    && forall i :: 0 <= i < |s| ==> IsSectionChar(s[i])
  }

  /** IsValidKeyString: `[A-Za-z_][A-Za-z0-9_.]*`, not empty, not ending in a space. */
  predicate IsValidKeyName(s: string)
    ensures IsValidKeyName(s) ==> AllPlain(s) && IsTrimmed(s) && NoNewline(s)
  {
    s != [] && s[|s| - 1] != ' ' && IsNameStart(s[0])
    && forall i :: 0 <= i < |s| ==> IsKeyChar(s[i])
  }

  // ---------------------------------------------------------------------------
  // Line classification
  // ---------------------------------------------------------------------------

  /** IsCommentLine: the line starts with `;` or `#` (an empty line reads its terminating NUL). */
  predicate IsCommentLine(line: string)
    ensures IsCommentLine(line) ==> ParseSectionLine(line).None? && ParseKeyValueLine(line).None?
  {
    line != [] && (line[0] == ';' || line[0] == '#')
  }

  /**
   * IsSectionLine: `[`, optional blanks, a name `[A-Za-z_][A-Za-z_0-9- ]*`,
   * optional blanks, `]`.  The scanner skips the leading blanks, takes the
   * longest run of name characters, and demands that only blanks follow it;
   * the section name is that run, trimmed.  Whatever it recognises is a name
   * that SetValue would accept.
   */
  function ParseSectionLine(line: string): (r: Option<string>)
    ensures r.Some? ==> IsValidSectionName(r.value)
  {
    if |line| < 3 || line[0] != '[' || line[|line| - 1] != ']' then None
    else
      var inner := line[1..|line| - 1];
      ParseHeaderName(inner[Span(inner, IsBlank)..])
  }

  /**
   * The name part of a header, after the `[` and its leading blanks: a longest
   * run of section characters that starts with `[A-Za-z_]`, then only blanks.
   */
  function ParseHeaderName(run: string): (r: Option<string>)
    ensures r.Some? ==> IsValidSectionName(r.value)
  {
    var g := Span(run, IsSectionChar);
    if run != [] && IsNameStart(run[0]) && AllBlank(run[g..]) then
      RunNameIsValid(run);
      Some(Trim(run[..g]))
    else None
  }

  /** The trimmed longest run of section characters at the head of `run` is a valid section name. */
  lemma RunNameIsValid(run: string)
    requires run != [] && IsNameStart(run[0])
    ensures IsValidSectionName(Trim(run[..Span(run, IsSectionChar)]))
  {
    var g := Span(run, IsSectionChar);
    assert IsSectionChar(run[0]);
    var head := run[..g];
    assert head[0] == run[0];
    var name := Trim(head);
    TrimKeeps(head, IsSectionChar);
    TrimNonEmpty(head);
    assert name[0] == head[0];
    assert IsSectionChar(name[|name| - 1]) && !IsTrimSpace(name[|name| - 1]);
  }

  /** Every header `[` + blanks + valid name + blanks + `]` is recognised, with that name. */
  lemma SectionLineAccepts(a: string, name: string, b: string)
    requires AllBlank(a) && AllBlank(b) && IsValidSectionName(name)
    ensures ParseSectionLine("[" + a + name + b + "]") == Some(name)
  {
    var line := "[" + a + name + b + "]";
    var inner := a + name + b;
    assert line == ['['] + inner + [']'];
    assert line[1..|line| - 1] == inner;
    var i := Span(inner, IsBlank);
    assert forall j :: 0 <= j < |a| ==> inner[j] == a[j];
    assert inner[|a|] == name[0];
    assert i == |a|;
    assert inner[i..] == name + b;
    HeaderNameAccepts(name, b);
  }

  lemma HeaderNameAccepts(name: string, b: string)
    requires AllBlank(b) && IsValidSectionName(name)
    ensures ParseHeaderName(name + b) == Some(name)
  {
    var run := name + b;
    SpanAppend(name, b, IsSectionChar);
    var k := Span(b, IsSectionChar);
    var g := |name| + k;
    assert run[..g] == [] + name + b[..k];
    assert run[g..] == b[k..];
    BlankSplit(b, k);
    TrimUnique([], name, b[..k]);
    assert run[0] == name[0];
  }

  /** Both pieces of a run of blanks are blanks, and so white space. */
  lemma BlankSplit(b: string, k: nat)
    requires AllBlank(b) && k <= |b|
    ensures AllSpace(b[..k]) && AllBlank(b[k..])
  {
    forall j | 0 <= j < k
      ensures IsTrimSpace(b[..k][j])
    {
      assert b[..k][j] == b[j];
    }
    forall j | 0 <= j < |b| - k
      ensures IsBlank(b[k..][j])
    {
      assert b[k..][j] == b[k + j];
    }
  }

  /** Scanning past a prefix whose characters all satisfy `p`. */
  lemma {:induction false} SpanAppend(x: string, y: string, p: char -> bool)
    requires forall i :: 0 <= i < |x| ==> p(x[i])
    ensures Span(x + y, p) == |x| + Span(y, p)
  {
    if x != [] {
      assert (x + y)[0] == x[0];
      assert (x + y)[1..] == x[1..] + y;
      SpanAppend(x[1..], y, p);
    } else {
      assert x + y == y;
    }
  }

  /** A recognised header is `[` + blanks + its name + blanks + `]`. */
  lemma SectionLineShape(line: string) returns (a: string, b: string)
    requires ParseSectionLine(line).Some?
    ensures AllBlank(a) && AllBlank(b)
    ensures line == "[" + a + ParseSectionLine(line).value + b + "]"
  {
    var inner := line[1..|line| - 1];
    var name := ParseSectionLine(line).value;
    a, b := HeaderInnerShape(inner);
    Bracketed(line, a, name, b);
  }

  lemma Bracketed(line: string, a: string, name: string, b: string)
    requires |line| >= 2 && line[0] == '[' && line[|line| - 1] == ']'
    requires line[1..|line| - 1] == a + name + b
    ensures line == "[" + a + name + b + "]"
  {
    assert line == line[..1] + line[1..|line| - 1] + line[|line| - 1..];
  }

  lemma HeaderInnerShape(inner: string) returns (a: string, b: string)
    requires ParseHeaderName(inner[Span(inner, IsBlank)..]).Some?
    ensures AllBlank(a) && AllBlank(b)
    ensures inner == a + ParseHeaderName(inner[Span(inner, IsBlank)..]).value + b
  {
    var i := Span(inner, IsBlank);
    a := inner[..i];
    assert forall j :: 0 <= j < |a| ==> a[j] == inner[j];
    b := HeaderNameShape(inner[i..]);
    assert inner == a + inner[i..];
  }

  lemma HeaderNameShape(run: string) returns (b: string)
    requires ParseHeaderName(run).Some?
    ensures AllBlank(b) && run == ParseHeaderName(run).value + b
  {
    var g := Span(run, IsSectionChar);
    var name := ParseHeaderName(run).value;
    var head := run[..g];
    assert name == Trim(head);
    TrimNonEmpty(head);
    assert name == run[..|name|];
    b := run[|name|..];
    forall j | 0 <= j < |b| ensures IsBlank(b[j]) {
      var x := |name| + j;
      assert b[j] == run[x];
      if x < g {
        assert run[x] == head[x];
        assert IsTrimSpace(head[x]) && IsSectionChar(run[x]);
      } else {
        assert run[x] == run[g..][x - g];
      }
    }
    assert run == name + b;
  }

  /**
   * IsKeyValueLine: the first of `=`, `#`, `;` in the line is `=` and at least
   * one character precedes it.  The key is the text before that `=`, the value
   * the text up to the next `=`, `#` or `;`, the comment the rest, each trimmed.
   * The rest is matched by `.*`, which accepts no line break.
   */
  function ParseKeyValueLine(line: string): (r: Option<KeyValue>)
    ensures line != [] && IsSpecial(line[0]) ==> r.None?
    ensures r.Some? ==> EntryShape(r.value)
  {
    var p := Span(line, IsPlain);
    if p == 0 || p == |line| || line[p] != '=' then None
    else
      var rest := line[p + 1..];
      var q := Span(rest, IsPlain);
      var tail := rest[q..];
      if !NoLineBreak(tail) then None
      else
        TrimKeeps(line[..p], IsPlain);
        TrimKeeps(rest[..q], IsPlain);
        TrimKeeps(tail, IsNotLineBreak);
        if tail != [] then
          TrimNonEmpty(tail);
          Some(KeyValue(Trim(line[..p]), Trim(rest[..q]), Trim(tail)))
        else Some(KeyValue(Trim(line[..p]), Trim(rest[..q]), Trim(tail)))
  }

  /** On a line that does not start with white space, the key the scanner recognises is not empty. */
  lemma ParsedEntryShape(line: string)
    ensures ParseKeyValueLine(line).Some? && line != [] && !IsTrimSpace(line[0]) ==>
              ParseKeyValueLine(line).value.key != []
  {
    var p := Span(line, IsPlain);
    if 0 < p < |line| && line[p] == '=' {
      var rest := line[p + 1..];
      var q := Span(rest, IsPlain);
      var tail := rest[q..];
      if NoLineBreak(tail) {
        if !IsTrimSpace(line[0]) {
          TrimNonEmpty(line[..p]);
        }
      }
    }
  }

  /**
   * What the key/value scanner can produce: a key and a value free of `=`, `#`,
   * `;`; all three trimmed; a comment that is empty or starts with one of those
   * characters and holds no line break.
   */
  predicate EntryShape(kv: KeyValue)
  {
    && AllPlain(kv.key) && IsTrimmed(kv.key)
    && AllPlain(kv.value) && IsTrimmed(kv.value)
    && IsTrimmed(kv.comment) && NoLineBreak(kv.comment)
    && (kv.comment == [] || IsSpecial(kv.comment[0]))
  }

  /** The line GetConfigString writes for one entry. */
  function EntryLine(kv: KeyValue): string
  {
    kv.key + "=" + kv.value + (if kv.comment == [] then "" else "\t\t" + kv.comment)
  }

  /** The line GetConfigString writes for a section header. */
  function HeaderLine(name: string): string
  {
    "[" + name + "]"
  }

  /** An entry line written for a well-shaped entry with a key scans back to that entry. */
  lemma EntryLineRoundTrip(kv: KeyValue)
    requires EntryShape(kv) && kv.key != []
    ensures ParseKeyValueLine(EntryLine(kv)) == Some(kv)
  {
    var sep := if kv.comment == [] then "" else "\t\t";
    var rest := kv.value + sep + kv.comment;
    assert EntryLine(kv) == kv.key + ("=" + rest);
    var q := ValueEndsAtComment(kv.value, sep, kv.comment);
    assert rest[..q] == [] + kv.value + sep;
    ScanKeyValue(kv.key, rest);
    TrimOfTrimmed(kv.key);
    TrimOfTrimmed(kv.comment);
    TrimUnique([], kv.value, sep);
  }

  /** The scanner on a line `key=rest` whose key holds no `=`, `#` or `;`. */
  lemma ScanKeyValue(key: string, rest: string)
    requires AllPlain(key) && key != []
    requires NoLineBreak(rest[Span(rest, IsPlain)..])
    ensures var q := Span(rest, IsPlain);
            ParseKeyValueLine(key + ("=" + rest)) == Some(KeyValue(Trim(key), Trim(rest[..q]), Trim(rest[q..])))
  {
    var line := key + ("=" + rest);
    assert forall i :: 0 <= i < |key| ==> line[i] == key[i];
    assert line[|key|] == '=';
    assert Span(line, IsPlain) == |key|;
    assert line[..|key|] == key && line[|key| + 1..] == rest;
  }

  /** A line without `=`, `#` or `;` is not a key/value line. */
  lemma NoSeparatorRejected(line: string)
    requires AllPlain(line)
    ensures ParseKeyValueLine(line) == None
  {
    assert Span(line, IsPlain) == |line|;
  }

  /** A line whose first `=`, `#` or `;` is a `#` or a `;` is not a key/value line. */
  lemma CommentBeforeEqualsRejected(a: string, c: char, b: string)
    requires AllPlain(a) && (c == '#' || c == ';')
    ensures ParseKeyValueLine(a + [c] + b) == None
  {
    var line := a + [c] + b;
    assert forall i :: 0 <= i < |a| ==> line[i] == a[i];
    assert line[|a|] == c;
    assert Span(line, IsPlain) == |a|;
  }

  /** A key/value line whose comment part holds a line break is rejected, as `.*` matches none. */
  lemma LineBreakAfterValueRejected(key: string, rest: string)
    requires AllPlain(key) && key != []
    requires !NoLineBreak(rest[Span(rest, IsPlain)..])
    ensures ParseKeyValueLine(key + ("=" + rest)) == None
  {
    var line := key + ("=" + rest);
    assert forall i :: 0 <= i < |key| ==> line[i] == key[i];
    assert line[|key|] == '=';
    assert Span(line, IsPlain) == |key|;
    assert line[|key| + 1..] == rest;
  }

  lemma ValueEndsAtComment(value: string, sep: string, comment: string) returns (q: nat)
    requires AllPlain(value) && AllSpace(sep) && (comment == [] || IsSpecial(comment[0]))
    ensures q == |value| + |sep| == Span(value + sep + comment, IsPlain)
    ensures (value + sep + comment)[q..] == comment
  {
    var rest := value + sep + comment;
    assert forall i :: 0 <= i < |value| ==> rest[i] == value[i];
    assert forall i :: 0 <= i < |sep| ==> rest[|value| + i] == sep[i];
    assert comment != [] ==> rest[|value| + |sep|] == comment[0];
    q := |value| + |sep|;
  }

  /** An entry line starts with its key and ends with a character that is not white space. */
  lemma EntryLineIsTrimmed(kv: KeyValue)
    requires EntryShape(kv) && kv.key != []
    ensures IsTrimmed(EntryLine(kv)) && EntryLine(kv)[0] == kv.key[0]
  {
    var line := EntryLine(kv);
    if kv.comment != [] {
      assert line[|line| - 1] == kv.comment[|kv.comment| - 1];
    } else if kv.value != [] {
      assert line[|line| - 1] == kv.value[|kv.value| - 1];
    } else {
      assert line[|line| - 1] == '=';
    }
  }

  // ---------------------------------------------------------------------------
  // getline: splitting a file's text into lines, and joining lines back
  // ---------------------------------------------------------------------------

  /**
   * The lines `getline` yields: the text is cut at every line feed, the line
   * feeds are dropped, and a last piece without a final line feed is a line
   * when it is not empty.
   */
  function GetLines(text: string): (r: seq<string>)
    ensures forall i :: 0 <= i < |r| ==> NoNewline(r[i])
    decreases |text|
  {
    if text == [] then []
    else
      var n := Span(text, IsNotNewline);
      if n == |text| then [text] else [text[..n]] + GetLines(text[n + 1..])
  }

  /** The text of `lines`, each one followed by a line feed. */
  function JoinLines(lines: seq<string>): string
  {
    if lines == [] then "" else lines[0] + "\n" + JoinLines(lines[1..])
  }

  lemma {:induction false} JoinLinesAppend(a: seq<string>, b: seq<string>)
    ensures JoinLines(a + b) == JoinLines(a) + JoinLines(b)
  {
    if a != [] {
      assert (a + b)[1..] == a[1..] + b;
      JoinLinesAppend(a[1..], b);
    } else {
      assert a + b == b;
    }
  }

  /** The first line of a text is the text up to its first line feed. */
  lemma GetLinesCons(l: string, rest: string)
    requires NoNewline(l)
    ensures GetLines(l + "\n" + rest) == [l] + GetLines(rest)
  {
    var text := l + "\n" + rest;
    forall i | 0 <= i < |l| ensures IsNotNewline(text[i]) { assert text[i] == l[i]; }
    assert text[|l|] == '\n';
    assert Span(text, IsNotNewline) == |l|;
    assert text[..|l|] == l;
    assert text[|l| + 1..] == rest;
  }

  /** Reading back text written as lines gives those lines, when none holds a line feed. */
  lemma {:induction false} GetLinesJoinLines(lines: seq<string>)
    requires forall i :: 0 <= i < |lines| ==> NoNewline(lines[i])
    ensures GetLines(JoinLines(lines)) == lines
  {
    if lines != [] {
      GetLinesCons(lines[0], JoinLines(lines[1..]));
      GetLinesJoinLines(lines[1..]);
    }
  }

  /** A non-empty last line without a final line feed is read as a line of its own. */
  lemma {:induction false} GetLinesLastLine(lines: seq<string>, last: string)
    requires forall i :: 0 <= i < |lines| ==> NoNewline(lines[i])
    requires last != [] && NoNewline(last)
    ensures GetLines(JoinLines(lines) + last) == lines + [last]
  {
    if lines == [] {
      assert JoinLines(lines) + last == last;
      assert Span(last, IsNotNewline) == |last|;
    } else {
      assert JoinLines(lines) + last == lines[0] + "\n" + (JoinLines(lines[1..]) + last);
      GetLinesCons(lines[0], JoinLines(lines[1..]) + last);
      GetLinesLastLine(lines[1..], last);
    }
  }
}
