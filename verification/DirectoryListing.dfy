/** Listing a remote directory sorted, or unsorted when there are too many names
    (psftpcommon.c). */
module DirectoryListing {
  import opened CText

  datatype FxpName = FxpName(filename: seq<byte>, longname: seq<byte>)

  const MAX_NAMES_MEMORY: nat := 8 * 1024 * 1024

  // ---------------------------------------------------------------- order

  /** `a` does not come after `b` byte by byte, as strcmp orders them. */
  predicate NotAfter(a: seq<byte>, b: seq<byte>) {
    a == [] || (b != [] && (a[0] < b[0] || (a[0] == b[0] && NotAfter(a[1..], b[1..]))))
  }

  lemma {:induction false} OrderIsTotal(a: seq<byte>, b: seq<byte>)
    ensures NotAfter(a, b) || NotAfter(b, a)
    ensures NotAfter(a, b) && NotAfter(b, a) ==> a == b
    ensures NotAfter(a, a)
    decreases |a|
  {
    if a != [] {
      OrderIsTotal(a[1..], a[1..]);
      if b != [] {
        OrderIsTotal(a[1..], b[1..]);
        assert a == [a[0]] + a[1..] && b == [b[0]] + b[1..];
      }
    }
  }

  lemma {:induction false} OrderIsTransitive(a: seq<byte>, b: seq<byte>, c: seq<byte>)
    requires NotAfter(a, b) && NotAfter(b, c)
    ensures NotAfter(a, c)
  {
    if a != [] && a[0] == b[0] == c[0] {
      OrderIsTransitive(a[1..], b[1..], c[1..]);
    }
  }

  /** The order of strcmp: `a` comes first if `b` goes on where `a` ends, and otherwise if it has the
      smaller byte at the first index at which they differ. */
  lemma {:induction false} OrderIsByFirstDifference(a: seq<byte>, b: seq<byte>)
    ensures NotAfter(a, b) <==> a <= b || exists k :: FirstDifference(a, b, k) && a[k] < b[k]
    decreases |a|
  {
    if a != [] && b != [] && a[0] == b[0] {
      var c, d := a[1..], b[1..];
      OrderIsByFirstDifference(c, d);
      assert a == [a[0]] + c && b == [b[0]] + d;
      assert a <= b <==> c <= d;
      forall k | FirstDifference(c, d, k)
        ensures FirstDifference(a, b, k + 1)
      {
        assert a[..k + 1] == [a[0]] + c[..k] && b[..k + 1] == [b[0]] + d[..k];
      }
      forall k | FirstDifference(a, b, k)
        ensures k > 0 && FirstDifference(c, d, k - 1)
      {
        assert c[..k - 1] == a[..k][1..] && d[..k - 1] == b[..k][1..];
      }
      if k :| FirstDifference(c, d, k) && c[k] < d[k] {
        assert FirstDifference(a, b, k + 1) && a[k + 1] < b[k + 1];
      }
      if k :| FirstDifference(a, b, k) && a[k] < b[k] {
        assert FirstDifference(c, d, k - 1) && c[k - 1] < d[k - 1];
      }
    } else if a != [] && b != [] {
      assert FirstDifference(a, b, 0);
      forall k | 0 < k < |a| && k < |b|
        ensures !FirstDifference(a, b, k)
      {
        assert a[..k][0] == a[0] && b[..k][0] == b[0];
      }
    }
  }

  predicate FirstDifference(a: seq<byte>, b: seq<byte>, k: int) {
    0 <= k < |a| && k < |b| && a[..k] == b[..k] && a[k] != b[k]
  }

  predicate Sorted(names: seq<FxpName>) {
    forall i, j | 0 <= i < j < |names| :: NotAfter(names[i].filename, names[j].filename)
  }

  function Filenames(names: seq<FxpName>): seq<seq<byte>> {
    seq(|names|, i requires 0 <= i < |names| => names[i].filename)
  }

  lemma {:induction false} FirstIsNotAfter(a: seq<FxpName>, f: seq<byte>)
    requires Sorted(a) && f in Filenames(a)
    ensures a != [] && NotAfter(a[0].filename, f)
  {
    var i :| 0 <= i < |a| && Filenames(a)[i] == f;
    OrderIsTotal(f, f);
  }

  lemma NamesOfTail(a: seq<FxpName>)
    requires a != []
    ensures Filenames(a) == [a[0].filename] + Filenames(a[1..])
    ensures multiset(Filenames(a[1..])) == multiset(Filenames(a)) - multiset{a[0].filename}
  {
    var f := Filenames(a[1..]);
    assert Filenames(a) == [a[0].filename] + f;
    assert multiset([a[0].filename] + f) == multiset{a[0].filename} + multiset(f);
  }

  lemma TailIsSorted(a: seq<FxpName>)
    requires a != [] && Sorted(a)
    ensures Sorted(a[1..])
  {
  }

  /** A sorted listing of the same names shows the same file names in the same order. */
  lemma {:induction false} SortedListingIsUnique(a: seq<FxpName>, b: seq<FxpName>)
    requires Sorted(a) && Sorted(b) && multiset(Filenames(a)) == multiset(Filenames(b))
    ensures Filenames(a) == Filenames(b)
    decreases |a|
  {
    hide Sorted, NotAfter;
    var ms := multiset(Filenames(a));
    assert |Filenames(a)| == |ms| == |Filenames(b)|;
    if a != [] {
      NamesOfTail(a);
      NamesOfTail(b);
      var f, g := a[0].filename, b[0].filename;
      assert f in ms && g in ms;
      FirstIsNotAfter(b, f);
      FirstIsNotAfter(a, g);
      OrderIsTotal(f, g);
      TailIsSorted(a);
      TailIsSorted(b);
      SortedListingIsUnique(a[1..], b[1..]);
    }
  }

  // ---------------------------------------------------------------- memory

  /** What one stored name costs: its text, a pointer and a record. */
  function Cost(name: FxpName, record: nat): nat {
    record + |name.filename| + |name.longname|
  }

  function TotalCost(names: seq<FxpName>, record: nat): nat {
    if names == [] then 0 else TotalCost(names[..|names| - 1], record) + Cost(names[|names| - 1], record)
  }

  lemma CostOneMore(names: seq<FxpName>, name: FxpName, record: nat)
    ensures TotalCost(names + [name], record) == TotalCost(names, record) + Cost(name, record)
  {
    assert (names + [name])[..|names|] == names;
  }

  function Longnames(names: seq<FxpName>): seq<seq<byte>> {
    seq(|names|, i requires 0 <= i < |names| => names[i].longname)
  }

  /** What is counted is a record for each name, and all of their text. */
  lemma {:induction false} CostIsAllText(names: seq<FxpName>, record: nat)
    ensures TotalCost(names, record)
         == |names| * record + |Concat(Filenames(names))| + |Concat(Longnames(names))|
    decreases |names|
  {
    if names != [] {
      var n := |names| - 1;
      CostIsAllText(names[..n], record);
      assert Filenames(names) == Filenames(names[..n]) + [names[n].filename];
      assert Longnames(names) == Longnames(names[..n]) + [names[n].longname];
      ConcatOfBoth(Filenames(names[..n]), [names[n].filename]);
      ConcatOfBoth(Longnames(names[..n]), [names[n].longname]);
      ConcatOfOne(names[n].filename);
      ConcatOfOne(names[n].longname);
      assert (n + 1) * record == n * record + record;
    }
  }

  // ---------------------------------------------------------------- the lister

  /** What stays sorted: a name put behind those that do not come after it, in front of one that
      does. */
  lemma SortedWithName(names: seq<FxpName>, k: nat, name: FxpName)
    requires Sorted(names) && k <= |names|
    requires forall i | 0 <= i < k :: NotAfter(names[i].filename, name.filename)
    requires k < |names| ==> !NotAfter(names[k].filename, name.filename)
    ensures Sorted(names[..k] + [name] + names[k..])
  {
    hide NotAfter;
    var r := names[..k] + [name] + names[k..];
    forall i | k <= i < |names|
      ensures NotAfter(name.filename, names[i].filename)
    {
      OrderIsTotal(name.filename, names[k].filename);
      if k < i {
        OrderIsTransitive(name.filename, names[k].filename, names[i].filename);
      }
    }
    forall i, j | 0 <= i < j < |r|
      ensures NotAfter(r[i].filename, r[j].filename)
    {
      assert r[i] == if i < k then names[i] else if i == k then name else names[i - 1];
      assert r[j] == if j < k then names[j] else if j == k then name else names[j - 1];
    }
  }

  lemma SameNames(names: seq<FxpName>, k: nat, name: FxpName)
    requires k <= |names|
    ensures multiset(names[..k] + [name] + names[k..]) == multiset(names) + multiset{name}
  {
    assert names == names[..k] + names[k..];
  }

  /** Puts a name behind those that do not come after it. */
  method InsertSorted(names: seq<FxpName>, name: FxpName) returns (r: seq<FxpName>)
    requires Sorted(names)
    ensures Sorted(r) && multiset(r) == multiset(names) + multiset{name}
  {
    hide Sorted, NotAfter;
    var k := 0;
    while k < |names| && NotAfter(names[k].filename, name.filename)
      invariant 0 <= k <= |names|
      invariant forall i | 0 <= i < k :: NotAfter(names[i].filename, name.filename)
    {
      k := k + 1;
    }
    SortedWithName(names, k, name);
    SameNames(names, k, name);
    r := names[..k] + [name] + names[k..];
  }

  /** Stands for qsort. */
  method Sort(names: seq<FxpName>) returns (r: seq<FxpName>)
    ensures Sorted(r) && multiset(r) == multiset(names)
  {
    r := [];
    for i := 0 to |names|
      invariant Sorted(r) && multiset(r) == multiset(names[..i])
    {
      r := InsertSorted(r, names[i]);
      assert names[..i + 1] == names[..i] + [names[i]];
    }
    assert names[..|names|] == names;
  }

  class Lister {
    const record: nat                 // the size of a pointer and a record
    var sorting: bool
    var totalMemory: nat
    var names: seq<FxpName>
    var printed: seq<FxpName>         // what has been shown
    var warnings: nat
    ghost var fed: seq<FxpName>       // all names passed in so far

    /** While sorting, all names are stored, nothing is shown and the memory they take is within
        the limit; afterwards all have been shown in the order they came, after one warning. */
    ghost predicate Valid()
      reads this
    {
      && totalMemory <= MAX_NAMES_MEMORY
      && (sorting <==> TotalCost(fed, record) <= MAX_NAMES_MEMORY)
      && (sorting ==> names == fed && totalMemory == TotalCost(fed, record) && printed == [] && warnings == 0)
      && (!sorting ==> names == [] && printed == fed && warnings == 1)
    }

    constructor (record: nat)
      ensures Valid() && fed == [] && this.record == record
    {
      this.record := record;
      sorting, totalMemory, names, printed, warnings, fed := true, 0, [], [], 0, [];
    }

    /** Shows all stored names in their order. */
    method PrintAll()
      modifies this`printed
      ensures printed == old(printed) + names
    {
      for i := 0 to |names|
        invariant printed == old(printed) + names[..i]
      {
        printed := printed + [names[i]];
        assert names[..i + 1] == names[..i] + [names[i]];
      }
      assert names[..|names|] == names;
    }

    method Feed(name: FxpName)
      requires Valid()
      modifies this
      ensures Valid() && fed == old(fed) + [name]
    {
      CostOneMore(fed, name, record);
      fed := fed + [name];
      if sorting {
        var thisNameMemory := Cost(name, record);
        if MAX_NAMES_MEMORY - totalMemory < thisNameMemory {
          warnings := warnings + 1;
          PrintAll();
          names := [];
          sorting := false;
          printed := printed + [name];
        } else {
          names := names + [name];
          totalMemory := totalMemory + thisNameMemory;
        }
      } else {
        printed := printed + [name];
      }
    }

    /** Shows what is stored. In the end each name has been shown exactly once: sorted, if all of
        them fit in the memory, and otherwise in the order they came. */
    method Finish()
      requires Valid()
      modifies this`names, this`printed
      ensures if TotalCost(fed, record) <= MAX_NAMES_MEMORY
        then Sorted(printed) && multiset(printed) == multiset(fed)
        else printed == fed
    {
      if |names| > 0 {
        assert sorting;
        names := Sort(names);
        PrintAll();
      }
    }
  }
}
