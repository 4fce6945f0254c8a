/** The rolling backup directory shared by both update scripts. A directory
    is modelled by the names of the backup files in it, as `sorted(glob(...))`
    lists them: strictly increasing in Python's string order. Copying a file in
    and removing one keep that listing sorted. */
module Backups {
  import opened Text
  import opened Calendar

  /** How many backups the scripts aim to keep. */
  const RETENTION := 5

  predicate Sorted(s: seq<string>) {
    forall i, j :: 0 <= i < j < |s| ==> LexLess(s[i], s[j])
  }

  /** A sorted listing is determined by the names in it, so the sorted
      sequence is the one and only listing of a set of file names. */
  lemma {:induction false} SortedUnique(a: seq<string>, b: seq<string>)
    requires Sorted(a) && Sorted(b)
    requires forall x :: x in a <==> x in b
    ensures a == b
  {
    if a != [] { assert a[0] in a; }
    if b != [] { assert b[0] in b; }
    if a != [] && b != [] {
      assert a[0] in b && b[0] in a;
      if a[0] != b[0] {
        var i :| 0 <= i < |b| && b[i] == a[0];
        var j :| 0 <= j < |a| && a[j] == b[0];
        assert LexLess(b[0], a[0]) && LexLess(a[0], b[0]);
        LexAsymmetric(a[0], b[0]);
      }
      forall x ensures x in a[1..] <==> x in b[1..] {
        if x in a[1..] {
          var k :| 1 <= k < |a| && a[k] == x;
          LexIrreflexive(x);
          assert x in a && x in b;
          var k2 :| 0 <= k2 < |b| && b[k2] == x;
          assert k2 != 0;
          assert b[1..][k2 - 1] == x;
        }
        if x in b[1..] {
          var k :| 1 <= k < |b| && b[k] == x;
          LexIrreflexive(x);
          assert x in b && x in a;
          var k2 :| 0 <= k2 < |a| && a[k2] == x;
          assert k2 != 0;
          assert a[1..][k2 - 1] == x;
        }
      }
      SortedUnique(a[1..], b[1..]);
      assert a == [a[0]] + a[1..] && b == [b[0]] + b[1..];
    }
  }

  /** The listing after `shutil.copy` writes the file `x` into the directory:
      a file of that name already there is overwritten, not duplicated. */
  function Insert(s: seq<string>, x: string): (r: seq<string>)
    requires Sorted(s)
    ensures Sorted(r)
    ensures forall y :: y in r <==> y in s || y == x
    ensures |r| == if x in s then |s| else |s| + 1
  {
    if s == [] then [x]
    else if s[0] == x then s
    else if LexLess(x, s[0]) then
      assert forall k :: 0 <= k < |s| ==> LexLess(x, s[k]) by {
        forall k | 0 <= k < |s| ensures LexLess(x, s[k]) {
          if k > 0 { LexTransitive(x, s[0], s[k]); }
        }
      }
      LexIrreflexive(x);
      [x] + s
    else
      LexTotal(x, s[0]);
      assert x in s <==> x in s[1..] by { assert s == [s[0]] + s[1..]; }
      var rest := Insert(s[1..], x);
      assert forall k :: 0 <= k < |rest| ==> LexLess(s[0], rest[k]) by {
        forall k | 0 <= k < |rest| ensures LexLess(s[0], rest[k]) {
          assert rest[k] in rest;
          if rest[k] != x {
            var j :| 0 <= j < |s[1..]| && s[1..][j] == rest[k];
            assert s[j + 1] == rest[k];
          }
        }
      }
      [s[0]] + rest
  }

  /** A name later than every name present is appended at the end. */
  lemma InsertLast(s: seq<string>, x: string)
    requires Sorted(s)
    requires forall k :: 0 <= k < |s| ==> LexLess(s[k], x)
    ensures Sorted(s + [x]) && Insert(s, x) == s + [x]
  {
    SortedUnique(Insert(s, x), s + [x]);
  }

  /** The listing after `os.remove` deletes the file `x`. */
  function Without(s: seq<string>, x: string): (r: seq<string>)
    requires Sorted(s)
    ensures Sorted(r)
    ensures forall y :: y in r <==> y in s && y != x
    ensures |r| == if x in s then |s| - 1 else |s|
  {
    if s == [] then []
    else if s[0] == x then
      assert x !in s[1..] by {
        forall k | 1 <= k < |s| ensures s[k] != x { LexIrreflexive(x); }
      }
      assert Without(s[1..], x) == s[1..] by { SortedUnique(Without(s[1..], x), s[1..]); }
      s[1..]
    else
      var rest := Without(s[1..], x);
      assert x in s <==> x in s[1..] by { assert s == [s[0]] + s[1..]; }
      assert forall k :: 0 <= k < |rest| ==> LexLess(s[0], rest[k]) by {
        forall k | 0 <= k < |rest| ensures LexLess(s[0], rest[k]) {
          assert rest[k] in rest;
          var j :| 0 <= j < |s[1..]| && s[1..][j] == rest[k];
          assert s[j + 1] == rest[k];
        }
      }
      [s[0]] + rest
  }

  /** The name of a backup made on day `d`: `<prefix><YYYYMMDD>.csv`. */
  function BackupName(prefix: string, d: Date): (r: string)
    requires Valid(d)
    ensures |r| == |prefix| + |Decimal(d.year)| + 8
    ensures r[..|prefix|] == prefix && r[|r| - 4..] == ".csv"
    ensures AllDigits(r[|prefix|..|r| - 4])
    ensures DigitsValue(r[|prefix|..|r| - 4]) == d.year * 10000 + d.month * 100 + d.day
  {
    var r := prefix + Stamp(d) + ".csv";
    assert r[..|prefix|] == prefix && r[|r| - 4..] == ".csv" && r[|prefix|..|r| - 4] == Stamp(d);
    r
  }

  /** The date stamp makes name order chronological: for four-digit years a
      backup name sorts before another exactly when it was made on an earlier
      day, and two days never share a name. */
  lemma BackupNameOrder(prefix: string, d1: Date, d2: Date)
    requires Valid(d1) && Valid(d2) && d1.year >= 1000 && d2.year >= 1000
    ensures LexLess(BackupName(prefix, d1), BackupName(prefix, d2)) <==> Before(d1, d2)
    ensures BackupName(prefix, d1) == BackupName(prefix, d2) <==> d1 == d2
  {
    StampOrder(d1, d2);
    var s1, s2 := Stamp(d1), Stamp(d2);
    assert BackupName(prefix, d1) == prefix + (s1 + ".csv");
    assert BackupName(prefix, d2) == prefix + (s2 + ".csv");
    LexCommonPrefix(prefix, s1 + ".csv", s2 + ".csv");
    LexBlocks(s1, ".csv", s2, ".csv");
    LexIrreflexive(".csv");
    if BackupName(prefix, d1) == BackupName(prefix, d2) {
      assert s1 + ".csv" == s2 + ".csv" by {
        assert s1 + ".csv" == BackupName(prefix, d1)[|prefix|..];
        assert s2 + ".csv" == BackupName(prefix, d2)[|prefix|..];
      }
      ConcatSplit(s1, ".csv", s2, ".csv");
    }
  }

  /** The backup directory. Its listing is what `sorted(glob(...))` returns. */
  class BackupDir {
    var files: seq<string>

    ghost predicate Valid()
      reads this
    {
      Sorted(files)
    }

    constructor (listing: seq<string>)
      requires Sorted(listing)
      ensures Valid() && files == listing
    {
      files := listing;
    }

    /** `os.remove(name)`. */
    method Remove(name: string)
      requires Valid()
      modifies this
      ensures Valid() && files == Without(old(files), name)
    {
      files := Without(files, name);
    }

    /** `shutil.copy(source, name)`. */
    method CopyIn(name: string)
      requires Valid()
      modifies this
      ensures Valid() && files == Insert(old(files), name)
    {
      files := Insert(files, name);
    }
  }
}
