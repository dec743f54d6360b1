/**
 * Which files are loaded, and in which order: `sorted(glob.glob("export *.json"))`.
 */
module Selection {
  import opened TrackModel

  const Prefix: string := "export "
  const Suffix: string := ".json"

  /** The name the glob pattern `export *.json` stands for when `*` matches `middle`. */
  function GlobName(middle: string): string {
    Prefix + middle + Suffix
  }

  /** The glob pattern as a string test: the fixed prefix, then the fixed suffix, not overlapping. */
  predicate IsTrackFileName(name: string) {
    && |name| >= |Prefix| + |Suffix|
    && name[..|Prefix|] == Prefix
    && name[|name| - |Suffix|..] == Suffix
  }

  /** The string test accepts exactly the names the glob pattern matches. */
  lemma TrackFileNameIsGlobMatch(name: string)
    ensures IsTrackFileName(name) <==> exists middle :: GlobName(middle) == name
  {
    if IsTrackFileName(name) {
      var middle := name[|Prefix|..|name| - |Suffix|];
      assert name == name[..|Prefix|] + middle + name[|name| - |Suffix|..];
      assert GlobName(middle) == name;
    }
    if middle :| GlobName(middle) == name {
      assert name[..|Prefix|] == Prefix;
      assert name[|name| - |Suffix|..] == Suffix;
    }
  }

  /** Python's `<=` on `str`: lexicographic by code point, a proper prefix first. */
  predicate NameLe(a: string, b: string) {
    if a == [] then true
    else if b == [] then false
    else if a[0] != b[0] then a[0] < b[0]
    else NameLe(a[1..], b[1..])
  }

  lemma {:induction false} NameLeReflexive(a: string)
    ensures NameLe(a, a)
  {
    if a != [] {
      NameLeReflexive(a[1..]);
    }
  }

  lemma {:induction false} NameLeTotal(a: string, b: string)
    ensures NameLe(a, b) || NameLe(b, a)
  {
    if a != [] && b != [] && a[0] == b[0] {
      NameLeTotal(a[1..], b[1..]);
    }
  }

  lemma {:induction false} NameLeTransitive(a: string, b: string, c: string)
    requires NameLe(a, b) && NameLe(b, c)
    ensures NameLe(a, c)
  {
    if a != [] && b != [] && c != [] && a[0] == b[0] && b[0] == c[0] {
      NameLeTransitive(a[1..], b[1..], c[1..]);
    }
  }

  lemma {:induction false} NameLeAntisymmetric(a: string, b: string)
    requires NameLe(a, b) && NameLe(b, a)
    ensures a == b
  {
    if a != [] && b != [] {
      NameLeAntisymmetric(a[1..], b[1..]);
      assert a == [a[0]] + a[1..] && b == [b[0]] + b[1..];
    }
  }

  /** Entries in ascending name order. */
  ghost predicate SortedByName(s: seq<DirEntry>) {
    forall i, j :: 0 <= i < j < |s| ==> NameLe(s[i].name, s[j].name)
  }

  /** The entries the glob matches, in listing order. */
  function MatchingEntries(dir: seq<DirEntry>): (r: seq<DirEntry>)
    ensures forall e :: e in r <==> e in dir && IsTrackFileName(e.name)
    ensures multiset(r) <= multiset(dir)
  {
    if dir == [] then []
    else
      assert dir == [dir[0]] + dir[1..];
      if IsTrackFileName(dir[0].name) then [dir[0]] + MatchingEntries(dir[1..])
      else MatchingEntries(dir[1..])
  }

  /** A sorted sequence stays sorted under an entry that precedes all of it. */
  lemma ConsSorted(x: DirEntry, s: seq<DirEntry>)
    requires SortedByName(s)
    requires forall y :: y in s ==> NameLe(x.name, y.name)
    ensures SortedByName([x] + s)
  {
  }

  /** An entry that precedes the head of a sorted sequence precedes all of it. */
  lemma PrecedesAll(e: DirEntry, s: seq<DirEntry>)
    requires SortedByName(s) && s != [] && NameLe(e.name, s[0].name)
    ensures forall y :: y in s ==> NameLe(e.name, y.name)
  {
    forall y | y in s ensures NameLe(e.name, y.name) {
      var j :| 0 <= j < |s| && s[j] == y;
      if j > 0 { NameLeTransitive(e.name, s[0].name, y.name); }
    }
  }

  /** Places `e` before the first entry of `s` it does not follow. */
  function Insert(e: DirEntry, s: seq<DirEntry>): (r: seq<DirEntry>)
    requires SortedByName(s)
    ensures SortedByName(r)
    ensures multiset(r) == multiset(s) + multiset{e}
  {
    if s == [] then [e]
    else if NameLe(e.name, s[0].name) then
      PrecedesAll(e, s);
      ConsSorted(e, s);
      [e] + s
    else
      assert SortedByName(s[1..]);
      var rest := Insert(e, s[1..]);
      InsertHeadPrecedes(e, s, rest);
      ConsSorted(s[0], rest);
      assert s == [s[0]] + s[1..];
      [s[0]] + rest
  }

  lemma InsertHeadPrecedes(e: DirEntry, s: seq<DirEntry>, rest: seq<DirEntry>)
    requires SortedByName(s) && s != [] && !NameLe(e.name, s[0].name)
    requires multiset(rest) == multiset(s[1..]) + multiset{e}
    ensures forall x :: x in rest ==> NameLe(s[0].name, x.name)
  {
    NameLeTotal(e.name, s[0].name);
    forall x | x in rest ensures NameLe(s[0].name, x.name) {
      assert x in multiset(rest);
      if x != e {
        assert x in multiset(s[1..]);
        var j :| 0 <= j < |s[1..]| && s[1..][j] == x;
        assert s[j + 1] == x;
      }
    }
  }

  /** `sorted(...)`: an ascending rearrangement of the entries. */
  function SortByName(s: seq<DirEntry>): (r: seq<DirEntry>)
    ensures SortedByName(r)
    ensures multiset(r) == multiset(s)
  {
    if s == [] then []
    else
      assert s == [s[0]] + s[1..];
      Insert(s[0], SortByName(s[1..]))
  }

  /** The files `load_track_data` opens, in the order it opens them. */
  function SelectTrackFiles(dir: seq<DirEntry>): (r: seq<DirEntry>)
    ensures SortedByName(r)
    ensures multiset(r) == multiset(MatchingEntries(dir))
    ensures forall e :: e in r <==> e in dir && IsTrackFileName(e.name)
  {
    var r := SortByName(MatchingEntries(dir));
    assert forall e :: e in r <==> e in multiset(r);
    r
  }

  /**
   * Names in a directory are distinct, so the selection is the only sorted
   * arrangement of the matching entries: the load order is fully determined.
   */
  lemma {:induction false} SelectionIsDetermined(dir: seq<DirEntry>, other: seq<DirEntry>)
    requires forall i, j :: 0 <= i < j < |dir| ==> dir[i].name != dir[j].name
    requires SortedByName(other)
    requires multiset(other) == multiset(MatchingEntries(dir))
    ensures other == SelectTrackFiles(dir)
  {
    var r := SelectTrackFiles(dir);
    SortedPermutationsEqual(r, other, dir);
  }

  lemma {:induction false} SortedPermutationsEqual(a: seq<DirEntry>, b: seq<DirEntry>, dir: seq<DirEntry>)
    requires forall i, j :: 0 <= i < j < |dir| ==> dir[i].name != dir[j].name
    requires multiset(a) <= multiset(dir)
    requires SortedByName(a) && SortedByName(b) && multiset(a) == multiset(b)
    ensures a == b
    decreases |a|
  {
    if a != [] {
      HeadsEqual(a, b, dir);
      TailsPermutation(a, b);
      SortedTail(a);
      SortedTail(b);
      SortedPermutationsEqual(a[1..], b[1..], dir);
      assert a == [a[0]] + a[1..] && b == [b[0]] + b[1..];
    }
  }

  lemma SortedTail(a: seq<DirEntry>)
    requires SortedByName(a) && a != []
    ensures SortedByName(a[1..])
  {
  }

  lemma TailsPermutation(a: seq<DirEntry>, b: seq<DirEntry>)
    requires a != [] && b != [] && a[0] == b[0] && multiset(a) == multiset(b)
    ensures multiset(a[1..]) == multiset(b[1..])
    ensures multiset(a[1..]) <= multiset(a)
  {
    assert a == [a[0]] + a[1..] && b == [b[0]] + b[1..];
    assert multiset(a[1..]) == multiset(a) - multiset{a[0]};
    assert multiset(b[1..]) == multiset(b) - multiset{b[0]};
  }

  lemma HeadsEqual(a: seq<DirEntry>, b: seq<DirEntry>, dir: seq<DirEntry>)
    requires forall i, j :: 0 <= i < j < |dir| ==> dir[i].name != dir[j].name
    requires multiset(a) <= multiset(dir)
    requires SortedByName(a) && SortedByName(b) && multiset(a) == multiset(b)
    requires a != []
    ensures b != [] && a[0] == b[0]
  {
    assert a[0] in multiset(b);
    assert b != [];
    assert b[0] in multiset(a);
    var k :| 0 <= k < |b| && b[k] == a[0];
    var m :| 0 <= m < |a| && a[m] == b[0];
    if k == 0 || m == 0 {
      NameLeReflexive(a[0].name);
    }
    assert NameLe(b[0].name, a[0].name);
    assert NameLe(a[0].name, b[0].name);
    NameLeAntisymmetric(a[0].name, b[0].name);
    assert a[0] in multiset(dir) && b[0] in multiset(dir);
    var i :| 0 <= i < |dir| && dir[i] == a[0];
    var j :| 0 <= j < |dir| && dir[j] == b[0];
    assert !(i < j) && !(j < i);
  }
}
