/** Duplicate-version cleanup: output files named `<base>.png`,
    `<base>_v<digits>.png` or `<base>_fixed.png` are grouped by base name;
    in every group of two or more the newest version is kept and the
    others are deleted. */
module Cleanup {
  import opened Results

  // ---------------------------------------------------------------------
  // File names

  predicate IsDigit(c: char) { '0' <= c <= '9' }

  predicate AllDigits(s: string) {
    forall i :: 0 <= i < |s| ==> IsDigit(s[i])
  }

  /** `int(s)` of a string of decimal digits. */
  function DigitsValue(s: string): (v: nat)
    requires AllDigits(s)
  {
    if s == [] then 0 else 10 * DigitsValue(s[..|s| - 1]) + (s[|s| - 1] as int - '0' as int)
  }

  /** What `(_v\d+|_fixed)?\.png$` makes of the text after the base name:
      the version it denotes (0 without a suffix, 999 for `_fixed`), or
      None when the text does not match. */
  function SuffixVersion(rest: string): (v: Option<nat>)
    ensures rest == ".png" ==> v == Some(0)
    ensures rest == "_fixed.png" ==> v == Some(999)
  {
    if rest == ".png" then Some(0)
    else if rest == "_fixed.png" then Some(999)
    else if |rest| > 6 && rest[..2] == "_v" && rest[|rest| - 4..] == ".png" && AllDigits(rest[2..|rest| - 4])
    then Some(DigitsValue(rest[2..|rest| - 4]))
    else None
  }

  datatype Parsed = Parsed(base: string, version: nat)

  /** `re.match(r'(.+?)(_v\d+|_fixed)?\.png$', name)`: the lazy base is the
      shortest non-empty prefix after which the rest matches. */
  function ParseName(name: string): (r: Option<Parsed>)
    ensures r.Some? ==> 1 <= |r.value.base| <= |name| && name[..|r.value.base|] == r.value.base &&
                        SuffixVersion(name[|r.value.base|..]) == Some(r.value.version)
    ensures r.Some? ==> forall k :: 1 <= k < |r.value.base| ==> SuffixVersion(name[k..]).None?
    ensures r.None? <==> forall k :: 1 <= k <= |name| ==> SuffixVersion(name[k..]).None?
  {
    ParseFrom(name, 1)
  }

  /** The first base length from n on that leaves a matching rest. */
  function ParseFrom(name: string, n: nat): (r: Option<Parsed>)
    requires n >= 1
    ensures r.Some? ==> n <= |r.value.base| <= |name| && name[..|r.value.base|] == r.value.base &&
                        SuffixVersion(name[|r.value.base|..]) == Some(r.value.version)
    ensures r.Some? ==> forall k :: n <= k < |r.value.base| ==> SuffixVersion(name[k..]).None?
    ensures r.None? <==> forall k :: n <= k <= |name| ==> SuffixVersion(name[k..]).None?
    decreases |name| - n
  {
    if n > |name| then None
    else match SuffixVersion(name[n..])
      case Some(v) => Some(Parsed(name[..n], v))
      case None => ParseFrom(name, n + 1)
  }

  // ---------------------------------------------------------------------
  // Grouping

  /** A file found under the output directory: its full path and its name. */
  datatype File = File(path: string, name: string)

  datatype Entry = Entry(version: nat, file: File)

  /** The entries of base b, in the order the files are listed. */
  function GroupOf(files: seq<File>, b: string): (g: seq<Entry>)
    ensures |g| <= |files|
  {
    if files == [] then []
    else
      var f := files[|files| - 1];
      var rest := GroupOf(files[..|files| - 1], b);
      match ParseName(f.name)
      case Some(p) => if p.base == b then rest + [Entry(p.version, f)] else rest
      case None => rest
  }

  /** The file's name parses, with base b. */
  predicate BaseIs(f: File, b: string) {
    ParseName(f.name).Some? && ParseName(f.name).value.base == b
  }

  /** Some listed file has base b. */
  ghost predicate HasBase(files: seq<File>, b: string) {
    exists i :: 0 <= i < |files| && BaseIs(files[i], b)
  }

  /** The bases in the order their first file is listed: the order of the
      dict's keys. */
  function FirstSeen(files: seq<File>): (order: seq<string>)
    ensures forall i, j :: 0 <= i < j < |order| ==> order[i] != order[j]
  {
    if files == [] then []
    else
      var init := FirstSeen(files[..|files| - 1]);
      match ParseName(files[|files| - 1].name)
      case Some(p) => if p.base in init then init else init + [p.base]
      case None => init
  }

  /** `find_duplicates`: the groups by base name, and the order in which the
      bases were first seen. */
  method FindDuplicates(files: seq<File>) returns (groups: map<string, seq<Entry>>, order: seq<string>)
    ensures order == FirstSeen(files)
    ensures forall b :: b in groups <==> b in order
    ensures forall b :: b in groups ==> groups[b] == GroupOf(files, b)
  {
    groups, order := map[], [];
    for k := 0 to |files|
      invariant order == FirstSeen(files[..k])
      invariant forall b :: b in groups <==> b in order
      invariant forall b :: b in groups ==> groups[b] == GroupOf(files[..k], b)
      invariant forall b :: b !in groups ==> GroupOf(files[..k], b) == []
    {
      var f := files[k];
      assert files[..k + 1][..k] == files[..k];
      assert files[..k + 1][k] == f;
      match ParseName(f.name)
      case Some(p) =>
        if p.base in groups {
          groups := groups[p.base := groups[p.base] + [Entry(p.version, f)]];
        } else {
          groups := groups[p.base := [Entry(p.version, f)]];
          order := order + [p.base];
        }
      case None =>
    }
    assert files[..|files|] == files;
  }

  /** The bases seen are exactly the bases of listed files. */
  lemma {:induction false} FirstSeenHasBase(files: seq<File>, b: string)
    ensures b in FirstSeen(files) <==> HasBase(files, b)
  {
    if files != [] {
      var init := files[..|files| - 1];
      FirstSeenHasBase(init, b);
      FirstSeenStep(files, b);
      HasBaseStep(files, b);
    }
  }

  lemma FirstSeenStep(files: seq<File>, b: string)
    requires files != []
    ensures b in FirstSeen(files) <==> b in FirstSeen(files[..|files| - 1]) || BaseIs(files[|files| - 1], b)
  {
  }

  lemma HasBaseStep(files: seq<File>, b: string)
    requires files != []
    ensures HasBase(files, b) <==> HasBase(files[..|files| - 1], b) || BaseIs(files[|files| - 1], b)
  {
    if HasBase(files[..|files| - 1], b) {
      HasBaseGrows(files, b);
    }
    if HasBase(files, b) && !BaseIs(files[|files| - 1], b) {
      HasBaseShrinks(files, b);
    }
  }

  lemma HasBaseGrows(files: seq<File>, b: string)
    requires files != [] && HasBase(files[..|files| - 1], b)
    ensures HasBase(files, b)
  {
    var init := files[..|files| - 1];
    var i :| 0 <= i < |init| && BaseIs(init[i], b);
    assert files[i] == init[i];
  }

  lemma HasBaseShrinks(files: seq<File>, b: string)
    requires files != [] && HasBase(files, b) && !BaseIs(files[|files| - 1], b)
    ensures HasBase(files[..|files| - 1], b)
  {
    var init := files[..|files| - 1];
    var i :| 0 <= i < |files| && BaseIs(files[i], b);
    assert i != |files| - 1;
    assert init[i] == files[i];
  }

  /** Grouping looks at the file name alone: every file whose name parses
      lands in the group of its base, wherever it lives. */
  lemma {:induction false} FileInItsGroup(files: seq<File>, i: int)
    requires 0 <= i < |files| && ParseName(files[i].name).Some?
    ensures Entry(ParseName(files[i].name).value.version, files[i]) in
            GroupOf(files, ParseName(files[i].name).value.base)
  {
    if i < |files| - 1 {
      var init := files[..|files| - 1];
      assert init[i] == files[i];
      FileInItsGroup(init, i);
    }
  }

  // ---------------------------------------------------------------------
  // Keeping the newest

  /** `versions.sort(key=version, reverse=True)`: newest first; the sort is
      stable, so equal versions keep their listed order. */
  function SortDesc(vs: seq<Entry>): (r: seq<Entry>)
    ensures |r| == |vs| && multiset(r) == multiset(vs)
  {
    if vs == [] then []
    else
      assert vs == [vs[0]] + vs[1..];
      Insert(vs[0], SortDesc(vs[1..]))
  }

  /** Put e in front of the first entry whose version is not greater. */
  function Insert(e: Entry, s: seq<Entry>): (r: seq<Entry>)
    ensures |r| == |s| + 1 && multiset(r) == multiset(s) + multiset{e}
  {
    if s == [] || s[0].version <= e.version then [e] + s
    else
      assert s == [s[0]] + s[1..];
      [s[0]] + Insert(e, s[1..])
  }

  predicate Descending(s: seq<Entry>) {
    forall i, j :: 0 <= i < j < |s| ==> s[i].version >= s[j].version
  }

  lemma {:induction false} InsertDescending(e: Entry, s: seq<Entry>)
    requires Descending(s)
    ensures Descending(Insert(e, s))
  {
    if s != [] && s[0].version > e.version {
      InsertDescending(e, s[1..]);
      var r := Insert(e, s[1..]);
      assert multiset(r) == multiset(s[1..]) + multiset{e};
      forall j | 0 <= j < |r| ensures s[0].version >= r[j].version {
        assert r[j] in multiset(r);
        if r[j] != e {
          assert r[j] in multiset(s[1..]);
          var k :| 0 <= k < |s[1..]| && s[1..][k] == r[j];
          assert s[k + 1] == r[j];
        }
      }
    }
  }

  lemma {:induction false} SortDescending(vs: seq<Entry>)
    ensures Descending(SortDesc(vs))
  {
    if vs != [] {
      SortDescending(vs[1..]);
      InsertDescending(vs[0], SortDesc(vs[1..]));
    }
  }

  /** The index of the first entry with the greatest version. */
  function FirstMax(vs: seq<Entry>): (k: nat)
    requires vs != []
    ensures k < |vs|
    ensures forall i :: 0 <= i < |vs| ==> vs[i].version <= vs[k].version
    ensures forall i :: 0 <= i < k ==> vs[i].version < vs[k].version
  {
    if |vs| == 1 then 0
    else
      var k := FirstMax(vs[1..]);
      if vs[0].version >= vs[k + 1].version then 0 else k + 1
  }

  /** Insertion keeps an entry in front when it is at least as new. */
  lemma InsertHead(e: Entry, s: seq<Entry>)
    requires s != [] ==> s[0].version <= e.version
    ensures Insert(e, s)[0] == e
  {
  }

  /** The kept entry, first after sorting, is the first listed entry with
      the greatest version. */
  lemma {:induction false} SortHeadIsFirstMax(vs: seq<Entry>)
    requires vs != []
    ensures SortDesc(vs)[0] == vs[FirstMax(vs)]
  {
    if |vs| > 1 {
      var tail := vs[1..];
      SortHeadIsFirstMax(tail);
      var k := FirstMax(tail);
      var st := SortDesc(tail);
      if vs[0].version >= tail[k].version {
        SortDescending(tail);
        assert st[0] == tail[k];
        InsertHead(vs[0], st);
      } else {
        assert Insert(vs[0], st) == [st[0]] + Insert(vs[0], st[1..]);
        assert vs[FirstMax(vs)] == tail[k];
      }
    }
  }

  /** The file a group of two or more keeps, and the files it deletes. */
  function Kept(vs: seq<Entry>): Entry
    requires |vs| > 1
  {
    SortDesc(vs)[0]
  }

  function Doomed(vs: seq<Entry>): seq<Entry>
    requires |vs| > 1
  {
    SortDesc(vs)[1..]
  }

  /** The kept file is the first listed entry with the greatest version. */
  lemma KeepNewest(vs: seq<Entry>)
    requires |vs| > 1
    ensures Kept(vs) == vs[FirstMax(vs)]
    ensures forall e :: e in vs ==> e.version <= Kept(vs).version
  {
    SortHeadIsFirstMax(vs);
  }

  /** Every other member of the group is deleted, each exactly once. */
  lemma DeleteTheRest(vs: seq<Entry>)
    requires |vs| > 1
    ensures multiset(Doomed(vs)) + multiset{Kept(vs)} == multiset(vs)
  {
    var s := SortDesc(vs);
    assert s == [s[0]] + s[1..];
  }

  /** The files targeted for deletion, group by group in dict order. */
  function Targets(files: seq<File>, order: seq<string>): seq<File> {
    if order == [] then []
    else
      var vs := GroupOf(files, order[|order| - 1]);
      Targets(files, order[..|order| - 1]) + (if |vs| > 1 then FilesOf(Doomed(vs)) else [])
  }

  /** The kept file of each group of two or more, in dict order. */
  function KeptFiles(files: seq<File>, order: seq<string>): seq<File> {
    if order == [] then []
    else
      var vs := GroupOf(files, order[|order| - 1]);
      KeptFiles(files, order[..|order| - 1]) + (if |vs| > 1 then [Kept(vs).file] else [])
  }

  function FilesOf(es: seq<Entry>): (fs: seq<File>)
    ensures |fs| == |es| && forall i :: 0 <= i < |es| ==> fs[i] == es[i].file
  {
    seq(|es|, i requires 0 <= i < |es| => es[i].file)
  }

  /** The number of files whose deletion succeeds. */
  function CountOk(fs: seq<File>, unlink: File -> bool): (n: nat)
    ensures n <= |fs|
  {
    if fs == [] then 0 else CountOk(fs[..|fs| - 1], unlink) + (if unlink(fs[|fs| - 1]) then 1 else 0)
  }

  lemma CountOkAppend(a: seq<File>, f: File, unlink: File -> bool)
    ensures CountOk(a + [f], unlink) == CountOk(a, unlink) + (if unlink(f) then 1 else 0)
  {
    assert (a + [f])[..|a|] == a;
  }

  /** Going one group further along the dict order. */
  lemma GroupsStep(files: seq<File>, order: seq<string>, k: nat)
    requires k < |order|
    ensures var vs := GroupOf(files, order[k]);
            Targets(files, order[..k + 1]) == Targets(files, order[..k]) + (if |vs| > 1 then FilesOf(Doomed(vs)) else []) &&
            KeptFiles(files, order[..k + 1]) == KeptFiles(files, order[..k]) + (if |vs| > 1 then [Kept(vs).file] else [])
  {
    assert order[..k + 1][..k] == order[..k];
  }

  /** `cleanup_duplicates`, with `unlink(f)` telling whether deleting f
      succeeds: the files it tries to delete, the files it keeps, and the
      two counts it reports. */
  method CleanupDuplicates(files: seq<File>, unlink: File -> bool)
    returns (targets: seq<File>, kept: seq<File>, deletedCount: nat, keptCount: nat)
    ensures targets == Targets(files, FirstSeen(files))
    ensures kept == KeptFiles(files, FirstSeen(files)) && keptCount == |kept|
    ensures deletedCount == CountOk(targets, unlink) && deletedCount <= |targets|
  {
    var groups, order := FindDuplicates(files);
    targets, kept, deletedCount, keptCount := [], [], 0, 0;
    for k := 0 to |order|
      invariant targets == Targets(files, order[..k])
      invariant kept == KeptFiles(files, order[..k]) && keptCount == |kept|
      invariant deletedCount == CountOk(targets, unlink)
    {
      var versions := groups[order[k]];
      GroupsStep(files, order, k);
      if |versions| > 1 {
        var sorted := SortDesc(versions);
        var latest := sorted[0].file;
        var doomed := FilesOf(sorted[1..]);
        targets, deletedCount := DeleteAll(targets, deletedCount, doomed, unlink);
        kept := kept + [latest];
        keptCount := keptCount + 1;
      }
    }
    assert order[..|order|] == order;
  }

  /** The inner loop: try to delete each file in turn, counting successes. */
  method DeleteAll(before: seq<File>, count: nat, doomed: seq<File>, unlink: File -> bool)
    returns (targets: seq<File>, deletedCount: nat)
    requires count == CountOk(before, unlink)
    ensures targets == before + doomed && deletedCount == CountOk(targets, unlink)
  {
    targets, deletedCount := before, count;
    for j := 0 to |doomed|
      invariant targets == before + doomed[..j]
      invariant deletedCount == CountOk(targets, unlink)
    {
      assert doomed[..j + 1] == doomed[..j] + [doomed[j]];
      CountOkAppend(targets, doomed[j], unlink);
      targets := targets + [doomed[j]];
      if unlink(doomed[j]) {
        deletedCount := deletedCount + 1;
      }
    }
    assert doomed[..|doomed|] == doomed;
  }
}
