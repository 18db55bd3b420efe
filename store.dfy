/**
 * The data model of the INI store and its operations on values: an ordered
 * list of sections, each a name and an ordered list of entries.  The class
 * `Config` (config.dfy) keeps one such list in a field and its methods are
 * proved to change it as the functions here say.
 */
module IniStore {
  import opened IniText
  import opened IniNumbers

  /** A `[name]` section with its entries in file order. */
  datatype Section = Section(name: string, entries: seq<KeyValue>)

  function Names(c: seq<Section>): (r: seq<string>)
    ensures |r| == |c| && forall i :: 0 <= i < |c| ==> r[i] == c[i].name
  {
    seq(|c|, i requires 0 <= i < |c| => c[i].name)
  }

  function Keys(es: seq<KeyValue>): (r: seq<string>)
    ensures |r| == |es| && forall i :: 0 <= i < |es| ==> r[i] == es[i].key
  {
    seq(|es|, i requires 0 <= i < |es| => es[i].key)
  }

  /** No two sections share a name. */
  predicate UniqueNames(c: seq<Section>)
  {
    forall i, j :: 0 <= i < j < |c| ==> c[i].name != c[j].name
  }

  /** No two entries of a list share a key. */
  predicate UniqueKeys(es: seq<KeyValue>)
  {
    forall i, j :: 0 <= i < j < |es| ==> es[i].key != es[j].key
  }

  /** Every section name occurs once and every key once in its section. */
  predicate Distinct(c: seq<Section>)
  {
    UniqueNames(c) && forall i :: 0 <= i < |c| ==> UniqueKeys(c[i].entries)
  }

  // ---------------------------------------------------------------------------
  // Lookups
  // ---------------------------------------------------------------------------

  /** `r` is the position of the first section called `name`, or None when there is none. */
  predicate IsFirstSection(c: seq<Section>, name: string, r: Option<nat>)
  {
    match r
    case None => forall i :: 0 <= i < |c| ==> c[i].name != name
    case Some(n) => n < |c| && c[n].name == name && forall i :: 0 <= i < n ==> c[i].name != name
  }

  /** `r` is the position of the first entry with key `key`, or None when there is none. */
  predicate IsFirstKey(es: seq<KeyValue>, key: string, r: Option<nat>)
  {
    match r
    case None => forall i :: 0 <= i < |es| ==> es[i].key != key
    case Some(n) => n < |es| && es[n].key == key && forall i :: 0 <= i < n ==> es[i].key != key
  }

  /** FindSection: the first section whose name equals `name`. */
  function FindSection(c: seq<Section>, name: string): (r: Option<nat>)
    ensures IsFirstSection(c, name, r)
  {
    if c == [] then None
    else if c[0].name == name then Some(0)
    else
      match FindSection(c[1..], name)
      case None => None
      case Some(n) => Some(n + 1)
  }

  /** FindKeyValue over one section: the first entry whose key equals `key`. */
  function FindKey(es: seq<KeyValue>, key: string): (r: Option<nat>)
    ensures IsFirstKey(es, key, r)
  {
    if es == [] then None
    else if es[0].key == key then Some(0)
    else
      match FindKey(es[1..], key)
      case None => None
      case Some(n) => Some(n + 1)
  }

  /** There is only one first position: the lookups are determined by their contracts. */
  lemma FirstSectionUnique(c: seq<Section>, name: string, r1: Option<nat>, r2: Option<nat>)
    requires IsFirstSection(c, name, r1) && IsFirstSection(c, name, r2)
    ensures r1 == r2
  {
  }

  lemma FirstKeyUnique(es: seq<KeyValue>, key: string, r1: Option<nat>, r2: Option<nat>)
    requires IsFirstKey(es, key, r1) && IsFirstKey(es, key, r2)
    ensures r1 == r2
  {
  }

  /** Two section lists with the same names find the same positions. */
  lemma SameNamesSameFind(a: seq<Section>, b: seq<Section>, name: string)
    requires Names(a) == Names(b)
    ensures FindSection(a, name) == FindSection(b, name)
  {
    assert IsFirstSection(b, name, FindSection(a, name));
    FirstSectionUnique(b, name, FindSection(a, name), FindSection(b, name));
  }

  /** The entry with key `key` of a list, found as FindKeyValue finds it. */
  function KeyLookup(es: seq<KeyValue>, key: string): (r: Option<KeyValue>)
    ensures r.Some? <==> key in Keys(es)
    ensures r.Some? ==> r.value in es && r.value.key == key
  {
    match FindKey(es, key)
    case None => None
    case Some(j) => Some(es[j])
  }

  /** GetSection: the entries of the first section called `name`, empty when there is none. */
  function GetSection(c: seq<Section>, name: string): (r: seq<KeyValue>)
    ensures name !in Names(c) ==> r == []
    ensures name in Names(c) ==> exists i :: 0 <= i < |c| && c[i].name == name && r == c[i].entries
  {
    match FindSection(c, name)
    case None => []
    case Some(i) => c[i].entries
  }

  /**
   * FindKeyValue(key, section, config): the entry `key` of the first section
   * called `section`.
   */
  function Lookup(c: seq<Section>, s: string, k: string): (r: Option<KeyValue>)
    ensures r.Some? <==> k in Keys(GetSection(c, s))
    ensures r.Some? ==> r.value.key == k && r.value in GetSection(c, s)
  {
    KeyLookup(GetSection(c, s), k)
  }

  // ---------------------------------------------------------------------------
  // InsertKeyValue
  // ---------------------------------------------------------------------------

  /** The entry list after InsertKeyValue: the entry with the same key is overwritten, or `kv` is appended. */
  function PutEntry(es: seq<KeyValue>, kv: KeyValue): (r: seq<KeyValue>)
    ensures kv in r
    ensures |r| == if kv.key in Keys(es) then |es| else |es| + 1
    ensures forall e :: e in r ==> e == kv || e in es
  {
    match FindKey(es, kv.key)
    case None => es + [kv]
    case Some(j) => assert es[j := kv][j] == kv; es[j := kv]
  }

  /**
   * The store after InsertKeyValue(kv, s): a new section holding only `kv` is
   * appended when there is no section `s`, otherwise `kv` goes into the first
   * section `s`.
   */
  function InsertEntry(c: seq<Section>, s: string, kv: KeyValue): (r: seq<Section>)
    ensures s in Names(r)
    ensures |r| == if s in Names(c) then |c| else |c| + 1
  {
    match FindSection(c, s)
    case None =>
      var r := c + [Section(s, [kv])];
      assert Names(r)[|c|] == s;
      r
    case Some(i) =>
      var r := c[i := Section(s, PutEntry(c[i].entries, kv))];
      assert Names(r)[i] == s;
      r
  }

  /** After PutEntry, `kv` is what its key finds and every other key finds what it found before. */
  lemma PutEntryLookup(es: seq<KeyValue>, kv: KeyValue, k: string)
    ensures KeyLookup(PutEntry(es, kv), k) == if k == kv.key then Some(kv) else KeyLookup(es, k)
  {
    var r := PutEntry(es, kv);
    match FindKey(es, kv.key)
    case None =>
      if k == kv.key {
        FirstKeyUnique(r, k, FindKey(r, k), Some(|es|));
      } else {
        FirstKeyUnique(r, k, FindKey(r, k), FindKey(es, k));
      }
    case Some(j) =>
      if k == kv.key {
        FirstKeyUnique(r, k, FindKey(r, k), Some(j));
      } else {
        FirstKeyUnique(r, k, FindKey(r, k), FindKey(es, k));
      }
  }

  /**
   * InsertKeyValue stores `kv` under its section and key, and every other
   * (section, key) pair finds what it found before.
   */
  lemma InsertEntryLookup(c: seq<Section>, s: string, kv: KeyValue, t: string, k: string)
    ensures Lookup(InsertEntry(c, s, kv), t, k) == if t == s && k == kv.key then Some(kv) else Lookup(c, t, k)
  {
    InsertEntrySections(c, s, kv, t);
    if t == s {
      PutEntryLookup(GetSection(c, s), kv, k);
    }
  }

  /** InsertKeyValue changes the entry list of section `s` only, as PutEntry does. */
  lemma InsertEntrySections(c: seq<Section>, s: string, kv: KeyValue, t: string)
    ensures GetSection(InsertEntry(c, s, kv), t) == if t == s then PutEntry(GetSection(c, s), kv) else GetSection(c, t)
  {
    var r := InsertEntry(c, s, kv);
    match FindSection(c, s)
    case None =>
      if t == s {
        FirstSectionUnique(r, t, FindSection(r, t), Some(|c|));
        assert PutEntry([], kv) == [kv];
      } else {
        FirstSectionUnique(r, t, FindSection(r, t), FindSection(c, t));
      }
    case Some(i) =>
      assert Names(r) == Names(c);
      SameNamesSameFind(r, c, t);
  }

  /** Section names only grow: a new section is appended at the end, an existing one keeps its place. */
  lemma InsertEntryNames(c: seq<Section>, s: string, kv: KeyValue)
    ensures Names(InsertEntry(c, s, kv)) == Names(c) + (if s in Names(c) then [] else [s])
  {
    var r := InsertEntry(c, s, kv);
    match FindSection(c, s)
    case None =>
      assert Names(r) == Names(c) + [s];
    case Some(i) =>
      assert Names(r) == Names(c);
  }

  /** In the target section, keys keep their order and a new key is appended at the end. */
  lemma InsertEntryKeys(c: seq<Section>, s: string, kv: KeyValue)
    ensures Keys(GetSection(InsertEntry(c, s, kv), s))
         == Keys(GetSection(c, s)) + (if kv.key in Keys(GetSection(c, s)) then [] else [kv.key])
  {
    InsertEntrySections(c, s, kv, s);
    PutEntryKeys(GetSection(c, s), kv);
  }

  /** PutEntry keeps the keys and their order, and appends a new key at the end. */
  lemma PutEntryKeys(es: seq<KeyValue>, kv: KeyValue)
    ensures Keys(PutEntry(es, kv)) == Keys(es) + (if kv.key in Keys(es) then [] else [kv.key])
  {
    match FindKey(es, kv.key)
    case None =>
      assert Keys(es + [kv]) == Keys(es) + [kv.key];
    case Some(j) =>
      assert Keys(es[j := kv]) == Keys(es);
  }

  /** InsertKeyValue keeps every section name and every key of a section unique. */
  lemma InsertEntryDistinct(c: seq<Section>, s: string, kv: KeyValue)
    requires Distinct(c)
    ensures Distinct(InsertEntry(c, s, kv))
  {
    var r := InsertEntry(c, s, kv);
    match FindSection(c, s)
    case None =>
      assert UniqueKeys([kv]);
      assert forall i :: 0 <= i < |r| ==> UniqueKeys(r[i].entries) by {
        forall i | 0 <= i < |r| ensures UniqueKeys(r[i].entries) {
          if i < |c| { assert r[i] == c[i]; }
        }
      }
    case Some(n) =>
      var es := c[n].entries;
      assert UniqueKeys(PutEntry(es, kv)) by {
        match FindKey(es, kv.key)
        case None =>
        case Some(j) =>
          assert Keys(es[j := kv]) == Keys(es);
      }
      assert Names(r) == Names(c);
  }

  // ---------------------------------------------------------------------------
  // SetValue
  // ---------------------------------------------------------------------------

  /** The names SetValue accepts: IsValidSectionString and IsValidKeyString. */
  predicate SetValueAccepts(s: string, k: string)
  {
    IsValidSectionName(s) && IsValidKeyName(k)
  }

  /**
   * The comment SetValue stores: trimmed, and prefixed with `# ` when it is
   * neither empty nor already starts with `;` or `#`.
   */
  function NormalizeComment(comment: string): (r: string)
    ensures r == [] <==> Trim(comment) == []
    ensures r != [] ==> r[0] == ';' || r[0] == '#'
    ensures r == Trim(comment) || r == "# " + Trim(comment)
    ensures Trim(comment) != [] && (Trim(comment)[0] == ';' || Trim(comment)[0] == '#') ==> r == Trim(comment)
    ensures IsTrimmed(r)
  {
    var t := Trim(comment);
    if t != [] && t[0] != ';' && t[0] != '#' then "# " + t else t
  }

  /** The comment the entry (s, k) holds after a successful SetValue. */
  function StoredComment(c: seq<Section>, s: string, k: string, comment: string, replace: bool): (r: string)
    ensures Lookup(c, s, k).None? || replace || Trim(comment) != [] ==> r == NormalizeComment(comment)
    ensures Lookup(c, s, k).Some? && !replace && Trim(comment) == [] ==> r == Lookup(c, s, k).value.comment
  {
    var note := NormalizeComment(comment);
    match Lookup(c, s, k)
    case None => note
    case Some(prev) => if replace || note != [] then note else prev.comment
  }

  /**
   * The store after SetValue(s, k, v, comment, replace): unchanged when a name
   * is rejected; otherwise the existing entry gets the new value (and the new
   * comment when asked to or when one is given), or a new entry is inserted.
   */
  function SetValue(c: seq<Section>, s: string, k: string, v: string, comment: string, replace: bool): (r: seq<Section>)
    ensures !SetValueAccepts(s, k) ==> r == c
    ensures SetValueAccepts(s, k) ==> s in Names(r) && |r| == if s in Names(c) then |c| else |c| + 1
  {
    if !SetValueAccepts(s, k) then c
    else InsertEntry(c, s, KeyValue(k, v, StoredComment(c, s, k, comment, replace)))
  }

  /** After a successful SetValue the pair (s, k) finds the new value with the comment the rules give. */
  lemma SetValueStores(c: seq<Section>, s: string, k: string, v: string, comment: string, replace: bool)
    requires SetValueAccepts(s, k)
    ensures Lookup(SetValue(c, s, k, v, comment, replace), s, k)
         == Some(KeyValue(k, v, StoredComment(c, s, k, comment, replace)))
  {
    InsertEntryLookup(c, s, KeyValue(k, v, StoredComment(c, s, k, comment, replace)), s, k);
  }

  /** SetValue leaves every other (section, key) pair as it was. */
  lemma SetValueKeepsOthers(c: seq<Section>, s: string, k: string, v: string, comment: string, replace: bool,
                            t: string, k2: string)
    requires t != s || k2 != k
    ensures Lookup(SetValue(c, s, k, v, comment, replace), t, k2) == Lookup(c, t, k2)
  {
    if SetValueAccepts(s, k) {
      InsertEntryLookup(c, s, KeyValue(k, v, StoredComment(c, s, k, comment, replace)), t, k2);
    }
  }

  /**
   * SetValue appends a new section or a new key at the end and otherwise keeps
   * every name, every key and their order; other sections are untouched.
   */
  lemma SetValueOrder(c: seq<Section>, s: string, k: string, v: string, comment: string, replace: bool, t: string)
    requires SetValueAccepts(s, k)
    ensures Names(SetValue(c, s, k, v, comment, replace)) == Names(c) + (if s in Names(c) then [] else [s])
    ensures Keys(GetSection(SetValue(c, s, k, v, comment, replace), s))
         == Keys(GetSection(c, s)) + (if k in Keys(GetSection(c, s)) then [] else [k])
    ensures t != s ==> GetSection(SetValue(c, s, k, v, comment, replace), t) == GetSection(c, t)
  {
    var kv := KeyValue(k, v, StoredComment(c, s, k, comment, replace));
    InsertEntryNames(c, s, kv);
    InsertEntryKeys(c, s, kv);
    InsertEntrySections(c, s, kv, t);
  }

  /** SetValue keeps names and keys unique, so (s, k) is then held by exactly one entry. */
  lemma SetValueDistinct(c: seq<Section>, s: string, k: string, v: string, comment: string, replace: bool)
    requires Distinct(c)
    ensures Distinct(SetValue(c, s, k, v, comment, replace))
  {
    if SetValueAccepts(s, k) {
      InsertEntryDistinct(c, s, KeyValue(k, v, StoredComment(c, s, k, comment, replace)));
    }
  }

  /**
   * A name the validators reject leaves the store as it was: a section name
   * starting with a digit, a key ending in a space.
   */
  lemma SetValueRejectsBadNames(c: seq<Section>, v: string, comment: string, replace: bool)
    ensures SetValue(c, "1bad", "key", v, comment, replace) == c
    ensures SetValue(c, "sec", "bad ", v, comment, replace) == c
  {
    assert !IsNameStart("1bad"[0]);
    assert "bad "[|"bad "| - 1] == ' ';
  }

  // ---------------------------------------------------------------------------
  // GetValue
  // ---------------------------------------------------------------------------

  /** GetValue(default, s, k): the stored value when it exists and is not empty, the default otherwise. */
  function GetValue(c: seq<Section>, default: string, s: string, k: string): (r: string)
    ensures Lookup(c, s, k).Some? && Lookup(c, s, k).value.value != [] ==> r == Lookup(c, s, k).value.value
    ensures Lookup(c, s, k).None? || Lookup(c, s, k).value.value == [] ==> r == default
  {
    match Lookup(c, s, k)
    case Some(kv) => if kv.value != [] then kv.value else default
    case None => default
  }

  /**
   * The integer GetValue: the default when the value is missing or empty or
   * when StringToNumber does not consume all of it, the number otherwise.
   */
  function GetValueInt(c: seq<Section>, default: int, s: string, k: string): (r: int)
    ensures r != default ==> StrToLong(GetValue(c, "", s, k)) == Some(r)
    ensures StrToLong(GetValue(c, "", s, k)).Some? ==> r == StrToLong(GetValue(c, "", s, k)).value
    ensures StrToLong(GetValue(c, "", s, k)).None? ==> r == default
  {
    var text := GetValue(c, "", s, k);
    if text == [] then default
    else match StrToLong(text)
      case Some(n) => n
      case None => default
  }

  /** GetValue after a successful SetValue gives the value written, or the default when it was empty. */
  lemma GetValueAfterSetValue(c: seq<Section>, s: string, k: string, v: string, comment: string, replace: bool,
                              default: string)
    requires SetValueAccepts(s, k)
    ensures GetValue(SetValue(c, s, k, v, comment, replace), default, s, k) == if v != [] then v else default
  {
    SetValueStores(c, s, k, v, comment, replace);
  }

  /** An integer written by the numeric SetValue (as its decimal text) reads back equal. */
  lemma GetValueIntAfterSetValue(c: seq<Section>, s: string, k: string, n: int, comment: string, replace: bool,
                                 default: int)
    requires SetValueAccepts(s, k)
    ensures GetValueInt(SetValue(c, s, k, IntToString(n), comment, replace), default, s, k) == n
  {
    GetValueAfterSetValue(c, s, k, IntToString(n), comment, replace, "");
    IntToStringRoundTrip(n);
  }

  /** A value with text after the number reads as the default: "123abc". */
  lemma GetValueIntRejectsTrailingText(c: seq<Section>, s: string, k: string, comment: string, replace: bool,
                                       default: int)
    requires SetValueAccepts(s, k)
    ensures GetValueInt(SetValue(c, s, k, "123abc", comment, replace), default, s, k) == default
  {
    GetValueAfterSetValue(c, s, k, "123abc", comment, replace, "");
    RejectsTrailingText();
  }

  // ---------------------------------------------------------------------------
  // DeleteKey and DeleteSection
  // ---------------------------------------------------------------------------

  /** The store after DeleteKey(s, k): the first entry `k` of the first section `s` is erased. */
  function RemoveKey(c: seq<Section>, s: string, k: string): (r: seq<Section>)
    ensures Names(r) == Names(c)
  {
    match FindSection(c, s)
    case None => c
    case Some(i) =>
      match FindKey(c[i].entries, k)
      case None => c
      case Some(j) => c[i := Section(c[i].name, c[i].entries[..j] + c[i].entries[j + 1..])]
  }

  /** The store after DeleteSection(s): the first section `s` is erased. */
  function RemoveSection(c: seq<Section>, s: string): (r: seq<Section>)
    ensures |r| == if s in Names(c) then |c| - 1 else |c|
    ensures forall x :: x in r ==> x in c
  {
    match FindSection(c, s)
    case None => c
    case Some(i) => c[..i] + c[i + 1..]
  }

  /** DeleteKey of a pair that is not there changes nothing. */
  lemma RemoveKeyAbsent(c: seq<Section>, s: string, k: string)
    requires Lookup(c, s, k).None?
    ensures RemoveKey(c, s, k) == c
  {
  }

  /** DeleteSection of a section that is not there changes nothing. */
  lemma RemoveSectionAbsent(c: seq<Section>, s: string)
    requires s !in Names(c)
    ensures RemoveSection(c, s) == c
  {
  }

  /**
   * DeleteKey erases only the first entry `k` of section `s`: that section
   * loses exactly that entry, and every other section is untouched.
   */
  lemma RemoveKeyEffect(c: seq<Section>, s: string, k: string, t: string)
    requires k in Keys(GetSection(c, s))
    ensures FindKey(GetSection(c, s), k).Some?
    ensures var j := FindKey(GetSection(c, s), k).value;
            GetSection(RemoveKey(c, s, k), s) == GetSection(c, s)[..j] + GetSection(c, s)[j + 1..]
    ensures t != s ==> GetSection(RemoveKey(c, s, k), t) == GetSection(c, t)
    ensures Names(RemoveKey(c, s, k)) == Names(c)
  {
    SameNamesSameFind(RemoveKey(c, s, k), c, t);
    RemoveKeyErases(c, s, k);
  }

  /** The section DeleteKey changes loses exactly the first entry `k`. */
  lemma RemoveKeyErases(c: seq<Section>, s: string, k: string)
    requires k in Keys(GetSection(c, s))
    ensures FindKey(GetSection(c, s), k).Some?
    ensures var j := FindKey(GetSection(c, s), k).value;
            GetSection(RemoveKey(c, s, k), s) == GetSection(c, s)[..j] + GetSection(c, s)[j + 1..]
  {
    SameNamesSameFind(RemoveKey(c, s, k), c, s);
  }

  /** In a store with unique keys, DeleteKey leaves no entry `k` in section `s`. */
  lemma RemoveKeyRemoves(c: seq<Section>, s: string, k: string)
    requires Distinct(c)
    ensures Lookup(RemoveKey(c, s, k), s, k).None?
  {
    if k in Keys(GetSection(c, s)) {
      RemoveKeyErases(c, s, k);
      var i := FindSection(c, s).value;
      var es := c[i].entries;
      assert UniqueKeys(es);
      var j := FindKey(es, k).value;
      var rest := es[..j] + es[j + 1..];
      forall n | 0 <= n < |rest|
        ensures Keys(rest)[n] != k
      {
        if n < j {
          assert rest[n] == es[n];
        } else {
          assert rest[n] == es[n + 1];
        }
      }
    } else {
      RemoveKeyAbsent(c, s, k);
    }
  }

  /** The entries left when position `j` is erased keep their keys unique. */
  lemma EraseKeepsUniqueKeys(es: seq<KeyValue>, j: nat)
    requires UniqueKeys(es) && j < |es|
    ensures UniqueKeys(es[..j] + es[j + 1..])
  {
    var rest := es[..j] + es[j + 1..];
    forall a, b | 0 <= a < b < |rest|
      ensures rest[a].key != rest[b].key
    {
      assert rest[a] == es[if a < j then a else a + 1];
      assert rest[b] == es[if b < j then b else b + 1];
    }
  }

  /** DeleteKey keeps every section name and every key of a section unique. */
  lemma RemoveKeyDistinct(c: seq<Section>, s: string, k: string)
    requires Distinct(c)
    ensures Distinct(RemoveKey(c, s, k))
  {
    var r := RemoveKey(c, s, k);
    forall a, b | 0 <= a < b < |r|
      ensures r[a].name != r[b].name
    {
      assert r[a].name == Names(c)[a] && r[b].name == Names(c)[b];
    }
    match FindSection(c, s)
    case None =>
    case Some(i) =>
      match FindKey(c[i].entries, k)
      case None =>
      case Some(j) =>
        EraseKeepsUniqueKeys(c[i].entries, j);
  }

  /** DeleteSection keeps every section name and every key of a section unique. */
  lemma RemoveSectionDistinct(c: seq<Section>, s: string)
    requires Distinct(c)
    ensures Distinct(RemoveSection(c, s))
  {
    match FindSection(c, s)
    case None =>
    case Some(i) =>
      EraseKeepsDistinct(c, i);
  }

  /** The sections left when position `i` is erased keep names and keys unique. */
  lemma EraseKeepsDistinct(c: seq<Section>, i: nat)
    requires Distinct(c) && i < |c|
    ensures Distinct(c[..i] + c[i + 1..])
  {
    var r := c[..i] + c[i + 1..];
    forall a, b | 0 <= a < b < |r|
      ensures r[a].name != r[b].name
    {
      assert r[a] == c[if a < i then a else a + 1];
      assert r[b] == c[if b < i then b else b + 1];
    }
    forall a | 0 <= a < |r|
      ensures UniqueKeys(r[a].entries)
    {
      assert r[a] == c[if a < i then a else a + 1];
    }
  }

  /**
   * DeleteSection erases only the first section `s`: the names lose that one
   * occurrence and every other section keeps its entries.
   */
  lemma RemoveSectionEffect(c: seq<Section>, s: string, t: string)
    requires s in Names(c)
    ensures FindSection(c, s).Some?
    ensures var i := FindSection(c, s).value;
            Names(RemoveSection(c, s)) == Names(c)[..i] + Names(c)[i + 1..]
    ensures t != s ==> GetSection(RemoveSection(c, s), t) == GetSection(c, t)
  {
    var i := FindSection(c, s).value;
    var r := RemoveSection(c, s);
    EraseNames(c, i);
    if t != s {
      EraseKeepsSection(c, i, t);
    }
  }

  /** A position after erasing position `i`. */
  function ShiftDown(n: Option<nat>, i: nat): Option<nat>
  {
    match n
    case None => None
    case Some(m) => Some(if m <= i then m else m - 1)
  }

  lemma EraseKeepsFirst(c: seq<Section>, i: nat, t: string)
    requires i < |c| && c[i].name != t
    ensures FindSection(c[..i] + c[i + 1..], t) == ShiftDown(FindSection(c, t), i)
  {
    var r := c[..i] + c[i + 1..];
    assert forall q :: 0 <= q < |r| ==> r[q] == if q < i then c[q] else c[q + 1];
    FirstSectionUnique(r, t, FindSection(r, t), ShiftDown(FindSection(c, t), i));
  }

  lemma EraseNames(c: seq<Section>, i: nat)
    requires i < |c|
    ensures Names(c[..i] + c[i + 1..]) == Names(c)[..i] + Names(c)[i + 1..]
  {
  }

  lemma EraseKeepsSection(c: seq<Section>, i: nat, t: string)
    requires i < |c| && c[i].name != t
    ensures GetSection(c[..i] + c[i + 1..], t) == GetSection(c, t)
  {
    var r := c[..i] + c[i + 1..];
    EraseKeepsFirst(c, i, t);
    match FindSection(c, t)
    case None =>
    case Some(n) =>
      assert r[if n <= i then n else n - 1] == c[n];
  }
}
