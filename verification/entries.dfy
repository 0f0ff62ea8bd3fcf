/**
 * getSortedEntries: the key under which each archive entry is filed
 * (its lower-cased base name without extension) and the map built from
 * the archive's entries, in which a later entry replaces an earlier one
 * with the same key.
 */
module Entries {
  import opened Wrappers
  import opened Text

  /**
   * The two things getSortedEntries reads of a ZipEntry. In Java,
   * isDirectory() is name.endsWith("/"); the flag is kept separate here
   * and every property below holds for either value of it.
   */
  datatype ZipEntry = ZipEntry(name: string, isDirectory: bool)

  /**
   * `substring` fails exactly when the name has a '.' and some '/' comes
   * after every '.' of it.
   */
  predicate DotOnlyBeforeSlash(name: string) {
    '.' in name && exists j :: 0 <= j < |name| && name[j] == '/' && '.' !in name[j..]
  }

  /** The end of the key: the last '.', or the end of the name when there is none. */
  function KeyEnd(n: string): (e: nat)
    ensures e <= |n|
  {
    var dot := LastIndexOf(n, '.');
    if dot == -1 then |n| else dot
  }

  /** The start of the key: just after the last '/', or 0 when there is none. */
  function KeyStart(n: string): (b: nat)
    ensures b <= |n|
  {
    LastIndexOf(n, '/') + 1
  }

  lemma KeyBoundsFail(n: string)
    ensures KeyEnd(n) < KeyStart(n) <==> DotOnlyBeforeSlash(n)
  {
    var slash := LastIndexOf(n, '/');
    var dot := LastIndexOf(n, '.');
    if KeyEnd(n) < KeyStart(n) {
      assert n[slash] == '/' && '.' !in n[slash + 1..];
      assert n[slash..] == [n[slash]] + n[slash + 1..];
    }
    if DotOnlyBeforeSlash(n) {
      var j :| 0 <= j < |n| && n[j] == '/' && '.' !in n[j..];
      assert forall t :: j <= t < |n| ==> n[t] == n[j..][t - j];
      assert forall t :: slash < t < |n| ==> n[t] == n[slash + 1..][t - slash - 1];
      assert dot < j;
      assert j <= slash;
    }
  }

  /** A lower-cased name has its '/' and '.' exactly where the name has them. */
  lemma LowerKeepsSeparators(name: string)
    ensures DotOnlyBeforeSlash(ToLower(name)) <==> DotOnlyBeforeSlash(name)
    ensures forall c :: c in ToLower(name) && (c == '/' || c == '.') ==> c in name
    ensures forall i :: 0 <= i < |name| ==>
      (ToLower(name)[i] == '/' <==> name[i] == '/') && (ToLower(name)[i] == '.' <==> name[i] == '.')
  {
    var n := ToLower(name);
    assert forall i :: 0 <= i < |name| ==> (n[i] == '/' <==> name[i] == '/') && (n[i] == '.' <==> name[i] == '.');
    forall j | 0 <= j <= |name| ensures ('.' in n[j..] <==> '.' in name[j..]) {
      assert forall k :: 0 <= k < |name| - j ==> n[j..][k] == n[j + k] && name[j..][k] == name[j + k];
    }
    assert ('.' in n <==> '.' in name) by {
      assert n[0..] == n && name[0..] == name;
    }
  }

  lemma KeyHasNoSeparators(n: string)
    requires KeyStart(n) <= KeyEnd(n)
    ensures '/' !in n[KeyStart(n)..KeyEnd(n)]
  {
    var k := n[KeyStart(n)..KeyEnd(n)];
    assert k == n[LastIndexOf(n, '/') + 1..][..|k|];
  }

  /**
   * The key of an entry name: lower-cased, without everything up to the
   * last '/', and without everything from the last '.' on. None stands for
   * the exception `substring` throws when that '.' precedes that '/'.
   */
  function EntryKey(name: string): Option<string> {
    KeyOf(ToLower(name))
  }

  /** The key cut out of an already lower-cased name. */
  function KeyOf(n: string): Option<string> {
    if KeyEnd(n) < KeyStart(n) then None else Some(n[KeyStart(n)..KeyEnd(n)])
  }

  /**
   * A name has no key exactly when its last '.' precedes its last '/';
   * a key holds no '/' and no upper-case letter.
   */
  lemma EntryKeyShape(name: string)
    ensures EntryKey(name).None? <==> DotOnlyBeforeSlash(name)
    ensures EntryKey(name).Some? ==> '/' !in EntryKey(name).value && |EntryKey(name).value| <= |name|
    ensures EntryKey(name).Some? ==> forall i :: 0 <= i < |EntryKey(name).value| ==> !IsAsciiUpper(EntryKey(name).value[i])
  {
    var n := ToLower(name);
    LowerKeepsSeparators(name);
    KeyBoundsFail(n);
    if KeyStart(n) <= KeyEnd(n) {
      KeyHasNoSeparators(n);
    }
  }

  /** Lower-casing works char by char. */
  lemma ToLowerAppend(a: string, b: string)
    ensures ToLower(a + b) == ToLower(a) + ToLower(b)
  {
  }

  /** Lower-casing neither adds nor removes a '/' or a '.'. */
  lemma LowerKeepsChar(s: string, c: char)
    requires c == '/' || c == '.'
    ensures c in ToLower(s) <==> c in s
    ensures s != [] ==> (ToLower(s)[0] == c <==> s[0] == c)
    ensures s != [] ==> ToLower(s)[1..] == ToLower(s[1..])
    ensures s != [] ==> ToLower(s)[|s| - 1] == LowerChar(s[|s| - 1])
  {
    var n := ToLower(s);
    assert forall i :: 0 <= i < |s| ==> (n[i] == c <==> s[i] == c);
  }

  /** Without a '/' after the directory part, the key starts right after it. */
  lemma KeyStartAfterDir(d: string, rest: string)
    requires d == [] || d[|d| - 1] == '/'
    requires '/' !in rest
    ensures KeyStart(d + rest) == |d|
  {
    var n := d + rest;
    if d == [] {
      assert n == rest;
      LastIndexOfIs(n, '/', -1);
    } else {
      assert n[|d| - 1] == '/' && n[|d|..] == rest;
      LastIndexOfIs(n, '/', |d| - 1);
    }
  }

  /** An extension that starts with the last '.' ends the key; without one the key runs to the end. */
  lemma KeyEndBeforeExt(p: string, x: string)
    requires x != [] ==> x[0] == '.' && '.' !in x[1..]
    requires x == [] ==> '.' !in p
    ensures KeyEnd(p + x) == |p|
  {
    var n := p + x;
    if x == [] {
      assert n == p;
      LastIndexOfIs(n, '.', -1);
    } else {
      assert n[|p|] == '.' && n[|p| + 1..] == x[1..];
      LastIndexOfIs(n, '.', |p|);
    }
  }

  /** The conditions under which a name splits into directory, base name and extension. */
  predicate PathParts(dir: string, base: string, ext: string) {
    && (dir == [] || dir[|dir| - 1] == '/')
    && '/' !in base && '/' !in ext
    && (ext != [] ==> ext[0] == '.' && '.' !in ext[1..])
    && (ext == [] ==> '.' !in dir && '.' !in base)
  }

  lemma KeyBoundsOfParts(d: string, b: string, x: string)
    requires PathParts(d, b, x)
    ensures KeyStart(d + b + x) == |d| && KeyEnd(d + b + x) == |d| + |b|
  {
    assert d + b + x == d + (b + x);
    KeyStartAfterDir(d, b + x);
    KeyEndBeforeExt(d + b, x);
  }

  lemma LowerKeepsParts(dir: string, base: string, ext: string)
    requires PathParts(dir, base, ext)
    ensures PathParts(ToLower(dir), ToLower(base), ToLower(ext))
  {
    LowerKeepsChar(dir, '/');
    LowerKeepsChar(dir, '.');
    LowerKeepsChar(base, '/');
    LowerKeepsChar(base, '.');
    LowerKeepsChar(ext, '/');
    LowerKeepsChar(ext, '.');
    if ext != [] {
      LowerKeepsChar(ext[1..], '.');
    }
  }

  /**
   * Building a name from a directory part, a base name and an extension
   * and taking its key gives back the lower-cased base name, provided the
   * extension is empty or runs from the last '.' on, and a name without
   * extension has no '.' at all.
   */
  lemma KeyOfPath(dir: string, base: string, ext: string)
    requires PathParts(dir, base, ext)
    ensures EntryKey(dir + base + ext) == Some(ToLower(base))
  {
    var d, b, x := ToLower(dir), ToLower(base), ToLower(ext);
    ToLowerAppend(dir, base);
    ToLowerAppend(dir + base, ext);
    assert ToLower(dir + base + ext) == d + b + x;
    LowerKeepsParts(dir, base, ext);
    KeyBoundsOfParts(d, b, x);
    assert (d + b + x)[|d|..|d| + |b|] == b;
  }

  lemma LowerAntwort()
    ensures ToLower("Antwort") == "antwort"
  {
  }

  lemma AntwortParts()
    ensures PathParts("Team1/", "Antwort", ".txt")
  {
    assert ".txt"[1..] == "txt";
  }

  /** "Team1/Antwort.txt" is filed under "antwort". */
  lemma AntwortKey()
    ensures EntryKey("Team1/Antwort.txt") == Some("antwort")
  {
    var name := "Team1/Antwort.txt";
    assert name == "Team1/" + "Antwort" + ".txt";
    AntwortParts();
    KeyOfPath("Team1/", "Antwort", ".txt");
    LowerAntwort();
  }

  /** A '.' in a directory name and none in the file name makes `substring` fail. */
  lemma DottedDirectoryFails()
    ensures EntryKey("v1.0/notes") == None
  {
    assert "v1.0/notes"[4] == '/' && '.' !in "v1.0/notes"[4..];
    assert "v1.0/notes"[2] == '.';
  }

  /** The keys of the files (entries that are not directories) among `entries`. */
  ghost function FileKeys(entries: seq<ZipEntry>): set<string> {
    if entries == [] then {}
    else
      var e := entries[|entries| - 1];
      var key := EntryKey(e.name);
      FileKeys(entries[..|entries| - 1]) + if !e.isDirectory && key.Some? then {key.value} else {}
  }

  /** A directory, or a file whose key `substring` can cut out. */
  predicate Keyable(e: ZipEntry) {
    e.isDirectory || EntryKey(e.name).Some?
  }

  /** Entry `j` is a file filed under `key`, and no later file is. */
  ghost predicate LastWithKey(entries: seq<ZipEntry>, key: string, j: int) {
    && 0 <= j < |entries| && !entries[j].isDirectory && EntryKey(entries[j].name) == Some(key)
    && forall t :: j < t < |entries| && !entries[t].isDirectory ==> EntryKey(entries[t].name) != Some(key)
  }

  lemma FileKeysAppend(entries: seq<ZipEntry>, e: ZipEntry)
    ensures e.isDirectory || EntryKey(e.name).None? ==> FileKeys(entries + [e]) == FileKeys(entries)
    ensures !e.isDirectory && EntryKey(e.name).Some? ==>
      FileKeys(entries + [e]) == FileKeys(entries) + {EntryKey(e.name).value}
  {
    assert (entries + [e])[..|entries|] == entries;
  }

  lemma LastWithKeyAppend(entries: seq<ZipEntry>, e: ZipEntry, key: string, j: int)
    requires LastWithKey(entries, key, j)
    requires e.isDirectory || EntryKey(e.name) != Some(key)
    ensures LastWithKey(entries + [e], key, j)
  {
    var es := entries + [e];
    assert forall t :: 0 <= t < |entries| ==> es[t] == entries[t];
  }

  lemma LastWithKeyNewest(entries: seq<ZipEntry>, e: ZipEntry)
    requires !e.isDirectory && EntryKey(e.name).Some?
    ensures LastWithKey(entries + [e], EntryKey(e.name).value, |entries|)
  {
  }

  /**
   * One step of getSortedEntries: directories are skipped, a file is filed
   * under its key (the map value is its position in the archive), and an
   * unkeyable file aborts the whole map.
   */
  function EntryStep(prev: Option<map<string, nat>>, e: ZipEntry, pos: nat): Option<map<string, nat>> {
    if prev.None? || e.isDirectory then prev
    else
      var key := EntryKey(e.name);
      if key.None? then None else Some(prev.value[key.value := pos])
  }

  /** The map getSortedEntries builds from `entries`, in archive order. */
  ghost function EntryMap(entries: seq<ZipEntry>): Option<map<string, nat>> {
    if entries == [] then Some(map[])
    else EntryStep(EntryMap(entries[..|entries| - 1]), entries[|entries| - 1], |entries| - 1)
  }

  lemma EntryMapNext(entries: seq<ZipEntry>, i: nat)
    requires i < |entries|
    ensures EntryMap(entries[..i + 1]) == EntryStep(EntryMap(entries[..i]), entries[i], i)
  {
    assert entries[..i + 1][..i] == entries[..i];
  }

  /** Every entry is a directory or a file with a key. */
  predicate AllKeyable(entries: seq<ZipEntry>) {
    forall j :: 0 <= j < |entries| ==> Keyable(entries[j])
  }

  lemma EntryStepFails(prev: Option<map<string, nat>>, e: ZipEntry, pos: nat)
    ensures EntryStep(prev, e, pos).None? <==> prev.None? || !Keyable(e)
  {
  }

  lemma AllKeyableSnoc(entries: seq<ZipEntry>)
    requires entries != []
    ensures AllKeyable(entries) <==> AllKeyable(entries[..|entries| - 1]) && Keyable(entries[|entries| - 1])
  {
    var init := entries[..|entries| - 1];
    assert forall j :: 0 <= j < |init| ==> init[j] == entries[j];
  }

  /** The map fails exactly when some file cannot be keyed. */
  lemma {:induction false} EntryMapFailsIff(entries: seq<ZipEntry>)
    ensures EntryMap(entries).None? <==> !AllKeyable(entries)
  {
    if entries != [] {
      var init := entries[..|entries| - 1];
      EntryMapFailsIff(init);
      EntryStepFails(EntryMap(init), entries[|entries| - 1], |entries| - 1);
      AllKeyableSnoc(entries);
    }
  }

  /** A map that did not fail holds the key of every file and nothing else. */
  lemma {:induction false} EntryMapKeys(entries: seq<ZipEntry>)
    ensures EntryMap(entries).Some? ==> EntryMap(entries).value.Keys == FileKeys(entries)
  {
    if entries != [] {
      var init := entries[..|entries| - 1];
      var e := entries[|entries| - 1];
      assert entries == init + [e];
      EntryMapKeys(init);
      FileKeysAppend(init, e);
    }
  }

  /** Under each key the map holds the position of the last file with that key. */
  lemma {:induction false} EntryMapLastWins(entries: seq<ZipEntry>)
    ensures EntryMap(entries).Some? ==>
      forall key :: key in EntryMap(entries).value ==> LastWithKey(entries, key, EntryMap(entries).value[key])
  {
    if entries != [] && EntryMap(entries).Some? {
      var init := entries[..|entries| - 1];
      var e := entries[|entries| - 1];
      assert entries == init + [e];
      EntryMapLastWins(init);
      var prev := EntryMap(init);
      var m := EntryMap(entries).value;
      forall key | key in m ensures LastWithKey(entries, key, m[key]) {
        if !e.isDirectory && key == EntryKey(e.name).value {
          LastWithKeyNewest(init, e);
        } else {
          LastWithKeyAppend(init, e, key, prev.value[key]);
        }
      }
    }
  }

  /** getSortedEntries: builds the map entry by entry, in archive order. */
  method GetSortedEntries(entries: seq<ZipEntry>) returns (r: Option<map<string, nat>>)
    ensures r == EntryMap(entries)
  {
    var m: map<string, nat> := map[];
    var i := 0;
    while i < |entries|
      invariant 0 <= i <= |entries|
      invariant EntryMap(entries[..i]) == Some(m)
    {
      var e := entries[i];
      EntryMapNext(entries, i);
      if e.isDirectory {
        i := i + 1;
        continue;
      }
      var key := EntryKey(e.name);
      if key.None? {
        EntryMapStaysNone(entries, i + 1);
        return None;
      }
      m := m[key.value := i];
      i := i + 1;
    }
    assert entries[..i] == entries;
    return Some(m);
  }

  /** Once the map has failed, later entries cannot revive it. */
  lemma {:induction false} EntryMapStaysNone(entries: seq<ZipEntry>, i: nat)
    requires i <= |entries| && EntryMap(entries[..i]) == None
    ensures EntryMap(entries) == None
    decreases |entries| - i
  {
    if i < |entries| {
      EntryMapNext(entries, i);
      EntryMapStaysNone(entries, i + 1);
    } else {
      assert entries[..i] == entries;
    }
  }
}
