/**
 * The order pages are converted in (`src/pipeline_base.py`): page files are
 * grouped by the folder (section) they sit in, and each section's pages are
 * sorted so that files named with a numeric prefix (`001_Main.xml`) come
 * first, by number, and the others follow by name.
 */
module PageOrder {

  import opened Strings

  /** A page file: the name of the folder it sits in and its own file name. */
  datatype PagePath = PagePath(parent: string, name: string)

  // ---------------------------------------------------------------------------
  // Sort keys

  /** `get_sort_key`: `(0, number)` for a numeric prefix, `(1, name)` otherwise. */
  datatype SortKey = Prefixed(number: nat) | Unprefixed(name: string)

  /** The length of the run of digits at the start of `s`. */
  function DigitRun(s: string, i: nat): (j: nat)
    requires i <= |s|
    ensures i <= j <= |s|
    ensures forall k :: i <= k < j ==> IsDigit(s[k])
    ensures j == |s| || !IsDigit(s[j])
    decreases |s| - i
  {
    if i == |s| || !IsDigit(s[i]) then i else DigitRun(s, i + 1)
  }

  /** `re.match(r'^(\d+)_', name)`: the prefix's value when digits and an underscore open the name. */
  function KeyOf(name: string): (k: SortKey)
    ensures k.Prefixed? <==> (DigitRun(name, 0) > 0 && DigitRun(name, 0) < |name| && name[DigitRun(name, 0)] == '_')
  {
    var j := DigitRun(name, 0);
    if j > 0 && j < |name| && name[j] == '_' then Prefixed(DigitsValue(name[..j])) else Unprefixed(name)
  }

  /** Python's ordering of strings: by code point, a proper prefix first. */
  predicate LexLe(a: string, b: string)
    decreases |a|
  {
    a == [] || (b != [] && (a[0] < b[0] || (a[0] == b[0] && LexLe(a[1..], b[1..]))))
  }

  /** Python's ordering of the key tuples. */
  predicate KeyLe(a: SortKey, b: SortKey)
  {
    match (a, b)
    case (Prefixed(m), Prefixed(n)) => m <= n
    case (Prefixed(_), Unprefixed(_)) => true
    case (Unprefixed(_), Prefixed(_)) => false
    case (Unprefixed(x), Unprefixed(y)) => LexLe(x, y)
  }

  lemma {:induction false} LexTotal(a: string, b: string)
    ensures LexLe(a, b) || LexLe(b, a)
    decreases |a|
  {
    if a != [] && b != [] && a[0] == b[0] {
      LexTotal(a[1..], b[1..]);
    }
  }

  lemma {:induction false} LexTrans(a: string, b: string, c: string)
    requires LexLe(a, b) && LexLe(b, c)
    ensures LexLe(a, c)
    decreases |a|
  {
    if a != [] && b[0] == c[0] && a[0] == b[0] {
      LexTrans(a[1..], b[1..], c[1..]);
    }
  }

  /** The key order is a total preorder, as tuple comparison is. */
  lemma KeyTotal(a: SortKey, b: SortKey)
    ensures KeyLe(a, b) || KeyLe(b, a)
  {
    if a.Unprefixed? && b.Unprefixed? {
      LexTotal(a.name, b.name);
    }
  }

  lemma KeyTrans(a: SortKey, b: SortKey, c: SortKey)
    requires KeyLe(a, b) && KeyLe(b, c)
    ensures KeyLe(a, c)
  {
    if a.Unprefixed? && b.Unprefixed? && c.Unprefixed? {
      LexTrans(a.name, b.name, c.name);
    }
  }

  lemma {:induction false} LexRefl(a: string)
    ensures LexLe(a, a)
    decreases |a|
  {
    if a != [] {
      LexRefl(a[1..]);
    }
  }

  // ---------------------------------------------------------------------------
  // Sorting

  function Key(p: PagePath): SortKey
  {
    KeyOf(p.name)
  }

  /** Every page's key is at most every later page's. */
  predicate Sorted(s: seq<PagePath>)
  {
    forall i, j :: 0 <= i < j < |s| ==> KeyLe(Key(s[i]), Key(s[j]))
  }

  /** `p` placed before the first page whose key is not smaller. */
  function Insert(p: PagePath, s: seq<PagePath>): (r: seq<PagePath>)
    ensures multiset(r) == multiset([p] + s)
    ensures |r| == |s| + 1
    decreases |s|
  {
    if s == [] || KeyLe(Key(p), Key(s[0])) then [p] + s
    else
      assert multiset([p] + s) == multiset([s[0]] + ([p] + s[1..])) by {
        assert s == [s[0]] + s[1..];
      }
      [s[0]] + Insert(p, s[1..])
  }

  /** `sorted(xml_files, key=get_sort_key)`: Python's sort is stable, as is inserting each page before its equals. */
  function SortPages(files: seq<PagePath>): (r: seq<PagePath>)
    ensures multiset(r) == multiset(files)
    ensures |r| == |files|
    decreases |files|
  {
    if files == [] then []
    else
      assert files == [files[0]] + files[1..];
      Insert(files[0], SortPages(files[1..]))
  }

  lemma {:induction false} InsertSorted(p: PagePath, s: seq<PagePath>)
    requires Sorted(s)
    ensures Sorted(Insert(p, s))
    decreases |s|
  {
    if s == [] || KeyLe(Key(p), Key(s[0])) {
      SortedCons(p, s);
    } else {
      SortedTail(s);
      InsertSorted(p, s[1..]);
      KeyTotal(Key(p), Key(s[0]));
      var t := Insert(p, s[1..]);
      forall j | 0 <= j < |t| ensures KeyLe(Key(s[0]), Key(t[j])) {
        InsertedFrom(p, s, t[j]);
      }
      SortedCons(s[0], t);
    }
  }

  /** A page whose key is at most the first of a sorted list's keys heads a sorted list. */
  lemma SortedCons(p: PagePath, s: seq<PagePath>)
    requires Sorted(s)
    requires s == [] || KeyLe(Key(p), Key(s[0]))
    ensures Sorted([p] + s)
  {
    var r := [p] + s;
    forall i, j | 0 <= i < j < |r| ensures KeyLe(Key(r[i]), Key(r[j])) {
      if i == 0 {
        if j > 1 { KeyTrans(Key(p), Key(s[0]), Key(s[j - 1])); }
      } else {
        assert r[i] == s[i - 1] && r[j] == s[j - 1];
      }
    }
  }

  lemma SortedTail(s: seq<PagePath>)
    requires Sorted(s) && s != []
    ensures Sorted(s[1..])
  {
    forall i, j | 0 <= i < j < |s[1..]| ensures KeyLe(Key(s[1..][i]), Key(s[1..][j])) {
      assert s[1..][i] == s[i + 1] && s[1..][j] == s[j + 1];
    }
  }

  /** Every page of a sorted list's tail, or `p` placed after its head, keys at least its head. */
  lemma InsertedFrom(p: PagePath, s: seq<PagePath>, y: PagePath)
    requires Sorted(s) && s != [] && KeyLe(Key(s[0]), Key(p))
    requires y in multiset(Insert(p, s[1..]))
    ensures KeyLe(Key(s[0]), Key(y))
  {
    assert y in multiset([p] + s[1..]);
    if y != p {
      assert y in s[1..];
      var m :| 0 <= m < |s[1..]| && s[1..][m] == y;
      assert s[m + 1] == y;
    }
  }

  /** The sorted pages are in key order. */
  lemma {:induction false} SortSorted(files: seq<PagePath>)
    ensures Sorted(SortPages(files))
    decreases |files|
  {
    if files != [] {
      SortSorted(files[1..]);
      InsertSorted(files[0], SortPages(files[1..]));
    }
  }

  /** The pages with key `k`, in order. */
  function WithKey(s: seq<PagePath>, k: SortKey): seq<PagePath>
    decreases |s|
  {
    if s == [] then [] else (if Key(s[0]) == k then [s[0]] else []) + WithKey(s[1..], k)
  }

  /** Insertion passes only pages of other keys. */
  lemma {:induction false} InsertWithKey(p: PagePath, s: seq<PagePath>, k: SortKey)
    ensures WithKey(Insert(p, s), k) == (if Key(p) == k then [p] else []) + WithKey(s, k)
    decreases |s|
  {
    if s == [] || KeyLe(Key(p), Key(s[0])) {
      WithKeyCons(p, s, k);
    } else {
      InsertWithKey(p, s[1..], k);
      var tail := Insert(p, s[1..]);
      WithKeyCons(s[0], tail, k);
      WithKeyCons(s[0], s[1..], k);
      assert [s[0]] + s[1..] == s;
      if Key(s[0]) == Key(p) {
        KeyRefl(Key(p));
      }
      assert Key(s[0]) != k || Key(p) != k;
    }
  }

  lemma WithKeyCons(x: PagePath, s: seq<PagePath>, k: SortKey)
    ensures WithKey([x] + s, k) == (if Key(x) == k then [x] else []) + WithKey(s, k)
  {
    assert ([x] + s)[1..] == s;
  }

  lemma KeyRefl(a: SortKey)
    ensures KeyLe(a, a)
  {
    if a.Unprefixed? {
      LexRefl(a.name);
    }
  }

  /** The sort is stable: pages with equal keys keep their order. */
  lemma {:induction false} SortStable(files: seq<PagePath>, k: SortKey)
    ensures WithKey(SortPages(files), k) == WithKey(files, k)
    decreases |files|
  {
    if files != [] {
      SortStable(files[1..], k);
      InsertWithKey(files[0], SortPages(files[1..]), k);
    }
  }

  /**
   * Every page with a numeric prefix comes before every page without one,
   * and prefixed pages come in the order of their numbers.
   */
  lemma PrefixedFirst(files: seq<PagePath>)
    ensures var r := SortPages(files);
      forall i, j :: 0 <= i < j < |r| ==>
        !(Key(r[i]).Unprefixed? && Key(r[j]).Prefixed?) &&
        (Key(r[i]).Prefixed? && Key(r[j]).Prefixed? ==> Key(r[i]).number <= Key(r[j]).number)
  {
    SortSorted(files);
  }

  /** Prefixes compare as numbers: `2_` sorts before `10_`. */
  lemma NumericPrefix(a: string, b: string)
    ensures KeyOf("2_" + a) == Prefixed(2) && KeyOf("10_" + b) == Prefixed(10)
  {
    var x := "2_" + a;
    var y := "10_" + b;
    assert DigitRun(x, 1) == 1;
    assert x[..1] == "2";
    assert DigitRun(y, 2) == 2;
    assert DigitRun(y, 1) == 2;
    assert y[..2] == "10";
    assert DigitsValue("10") == 10 by {
      assert "10"[..1] == "1";
    }
  }

  // ---------------------------------------------------------------------------
  // Grouping by section

  /** The pages of one section, in their given order. */
  function InSection(files: seq<PagePath>, section: string): (r: seq<PagePath>)
    ensures forall k :: 0 <= k < |r| ==> r[k].parent == section
    decreases |files|
  {
    if files == [] then [] else (if files[0].parent == section then [files[0]] else []) + InSection(files[1..], section)
  }

  /** The `for` loop of `group_pages_by_section`: each page appended to its folder's list. */
  function Collect(files: seq<PagePath>, k: nat, acc: map<string, seq<PagePath>>): map<string, seq<PagePath>>
    requires k <= |files|
    decreases |files| - k
  {
    if k == |files| then acc
    else
      var s := files[k].parent;
      Collect(files, k + 1, acc[s := (if s in acc then acc[s] else []) + [files[k]]])
  }

  /** `group_pages_by_section`: the collected lists, each one sorted. */
  function GroupBySection(files: seq<PagePath>): (r: map<string, seq<PagePath>>)
  {
    var groups := Collect(files, 0, map[]);
    map s | s in groups :: SortPages(groups[s])
  }

  /** The folders the pages sit in. */
  function Sections(files: seq<PagePath>): set<string>
  {
    set k | 0 <= k < |files| :: files[k].parent
  }

  /** After the `k`-th page, a folder's list holds what it held plus its pages from `k` on. */
  lemma {:induction false} CollectKey(files: seq<PagePath>, k: nat, acc: map<string, seq<PagePath>>, s: string)
    requires k <= |files|
    ensures s in Collect(files, k, acc) <==> s in acc || s in Sections(files[k..])
    ensures s in Collect(files, k, acc) ==>
      Collect(files, k, acc)[s] == (if s in acc then acc[s] else []) + InSection(files[k..], s)
    decreases |files| - k
  {
    if k == |files| {
      assert files[k..] == [];
      if s in acc {
        assert acc[s] + [] == acc[s];
      }
    } else {
      var p := files[k].parent;
      var acc' := acc[p := (if p in acc then acc[p] else []) + [files[k]]];
      CollectKey(files, k + 1, acc', s);
      assert files[k..] == [files[k]] + files[k + 1..];
      SectionsCons(files[k], files[k + 1..]);
      AppendStep(if s in acc then acc[s] else [], files[k], files[k + 1..], s);
    }
  }

  /** Appending a page to its folder's list now, or finding it among the rest later, gives the same list. */
  lemma AppendStep(prev: seq<PagePath>, f: PagePath, rest: seq<PagePath>, s: string)
    ensures (if f.parent == s then prev + [f] else prev) + InSection(rest, s) == prev + InSection([f] + rest, s)
  {
    assert ([f] + rest)[1..] == rest;
    if f.parent == s {
      ConcatAssoc(prev, [f], InSection(rest, s));
    }
  }

  lemma SectionsCons(p: PagePath, rest: seq<PagePath>)
    ensures Sections([p] + rest) == {p.parent} + Sections(rest)
  {
    var s := [p] + rest;
    forall x | x in Sections(s) ensures x in {p.parent} + Sections(rest) {
      var k :| 0 <= k < |s| && s[k].parent == x;
      if k > 0 { assert s[k] == rest[k - 1]; }
    }
    forall x | x in Sections(rest) ensures x in Sections(s) {
      var k :| 0 <= k < |rest| && rest[k].parent == x;
      assert s[k + 1] == rest[k];
    }
    assert s[0] == p;
  }

  /** Collecting from the first page with no lists yet gives each folder exactly its pages. */
  lemma CollectAll(files: seq<PagePath>)
    ensures var r := Collect(files, 0, map[]);
      r.Keys == Sections(files) && forall s :: s in r ==> r[s] == InSection(files, s)
  {
    assert files[0..] == files;
    var r := Collect(files, 0, map[]);
    forall s ensures s in r <==> s in Sections(files) {
      CollectKey(files, 0, map[], s);
    }
    forall s | s in r ensures r[s] == InSection(files, s) {
      CollectKey(files, 0, map[], s);
      assert [] + InSection(files, s) == InSection(files, s);
    }
  }

  /**
   * The grouping partitions the pages: there is one list per folder, and it
   * holds exactly that folder's pages, sorted.
   */
  lemma GroupPartition(files: seq<PagePath>)
    ensures var g := GroupBySection(files);
      g.Keys == Sections(files) &&
      forall s :: s in g ==> g[s] == SortPages(InSection(files, s))
  {
    var groups := Collect(files, 0, map[]);
    CollectAll(files);
    var g := GroupBySection(files);
    forall s | s in g ensures g[s] == SortPages(InSection(files, s)) {
      assert groups[s] == InSection(files, s);
    }
  }

  /** A page is in its own folder's list and in no other. */
  lemma GroupMembership(files: seq<PagePath>, p: PagePath, s: string)
    requires s in GroupBySection(files)
    ensures p in GroupBySection(files)[s] <==> p in files && p.parent == s
  {
    GroupPartition(files);
    var sorted := SortPages(InSection(files, s));
    assert p in sorted <==> p in multiset(InSection(files, s));
    InSectionMembers(files, s, p);
  }

  lemma {:induction false} InSectionMembers(files: seq<PagePath>, s: string, p: PagePath)
    ensures p in InSection(files, s) <==> p in files && p.parent == s
    decreases |files|
  {
    if files != [] {
      InSectionMembers(files[1..], s, p);
      assert files == [files[0]] + files[1..];
    }
  }
}
