/** The ORM queries the views issue, over the rows in insertion order:
    `filter`, `exclude`, `get`, `order_by(...).first()` and
    `order_by(...)[i]`. */
module Queries {
  import opened Wrappers
  import opened Models

  /** The outcome of a `get`: the one matching row, `DoesNotExist`, or
      `MultipleObjectsReturned`. */
  datatype GetResult<T> = Got(row: T) | DoesNotExist | MultipleObjectsReturned

  /** Keyword arguments of a query on FileVersion: every given field must
      equal the row's. */
  datatype Query = Query(id: Option<nat>, fileId: Option<nat>, owner: Option<UserId>, contentHash: Option<string>)

  function ById(id: nat): Query
  {
    Query(Some(id), None, None, None)
  }

  function ByFile(fileId: nat): Query
  {
    Query(None, Some(fileId), None, None)
  }

  function ByOwner(owner: UserId): Query
  {
    Query(None, None, Some(owner), None)
  }

  predicate Matches(v: FileVersion, q: Query)
  {
    && (q.id.Some? ==> v.id == q.id.value)
    && (q.fileId.Some? ==> v.fileId == q.fileId.value)
    && (q.owner.Some? ==> v.owner == q.owner.value)
    && (q.contentHash.Some? ==> v.contentHash == q.contentHash.value)
  }

  /** `filter(**q)` when `keep`, `exclude(**q)` otherwise; the rows keep
      their order. */
  function Select(vs: seq<FileVersion>, q: Query, keep: bool): seq<FileVersion>
  {
    if vs == [] then []
    else (if Matches(vs[0], q) == keep then [vs[0]] else []) + Select(vs[1..], q, keep)
  }

  /** The selected rows are exactly the rows of `vs` whose match is `keep`. */
  lemma {:induction false} SelectMembers(vs: seq<FileVersion>, q: Query, keep: bool)
    ensures forall v :: v in Select(vs, q, keep) <==> v in vs && Matches(v, q) == keep
    ensures |Select(vs, q, keep)| <= |vs|
  {
    if vs != [] {
      SelectMembers(vs[1..], q, keep);
      assert forall v :: v in vs <==> v == vs[0] || v in vs[1..];
    }
  }

  function Filter(vs: seq<FileVersion>, q: Query): (r: seq<FileVersion>)
    ensures forall v :: v in r <==> v in vs && Matches(v, q)
    ensures |r| <= |vs|
  {
    SelectMembers(vs, q, true);
    Select(vs, q, true)
  }

  function Exclude(vs: seq<FileVersion>, q: Query): (r: seq<FileVersion>)
    ensures forall v :: v in r <==> v in vs && !Matches(v, q)
    ensures |r| <= |vs|
  {
    SelectMembers(vs, q, false);
    Select(vs, q, false)
  }

  lemma SelectCons(x: FileVersion, rest: seq<FileVersion>, q: Query, keep: bool)
    ensures Select([x] + rest, q, keep) == (if Matches(x, q) == keep then [x] else []) + Select(rest, q, keep)
  {
    assert ([x] + rest)[1..] == rest;
  }

  lemma {:induction false} SelectAppend(a: seq<FileVersion>, b: seq<FileVersion>, q: Query, keep: bool)
    ensures Select(a + b, q, keep) == Select(a, q, keep) + Select(b, q, keep)
  {
    if a == [] {
      assert a + b == b;
    } else {
      assert a == [a[0]] + a[1..];
      assert a + b == [a[0]] + (a[1..] + b);
      SelectCons(a[0], a[1..], q, keep);
      SelectCons(a[0], a[1..] + b, q, keep);
      SelectAppend(a[1..], b, q, keep);
    }
  }

  /** `get_queryset()` followed by `get(id=...)`: filtering the owner's rows
      by id selects the same rows as one query naming both. */
  lemma {:induction false} OwnerThenIdIsCombinedQuery(vs: seq<FileVersion>, owner: UserId, id: nat)
    ensures Filter(Filter(vs, ByOwner(owner)), ById(id)) == Filter(vs, Query(Some(id), None, Some(owner), None))
  {
    if vs != [] {
      var x := vs[0];
      OwnerThenIdIsCombinedQuery(vs[1..], owner, id);
      var h := if Matches(x, ByOwner(owner)) then [x] else [];
      assert Select(vs, ByOwner(owner), true) == h + Select(vs[1..], ByOwner(owner), true);
      SelectAppend(h, Select(vs[1..], ByOwner(owner), true), ById(id), true);
      if h != [] {
        assert h == [x] + [];
        SelectCons(x, [], ById(id), true);
      }
    }
  }

  /** Row `a` may stand before row `b`: different ids and, within one file,
      a smaller version number. */
  predicate Precedes(a: FileVersion, b: FileVersion)
  {
    a.id != b.id && (a.fileId == b.fileId ==> a.versionNumber < b.versionNumber)
  }

  /** Row ids are distinct, and within one file the version numbers strictly
      increase in insertion order. */
  predicate Ordered(vs: seq<FileVersion>)
  {
    forall i, j :: 0 <= i < j < |vs| ==> Precedes(vs[i], vs[j])
  }

  lemma OrderedTail(vs: seq<FileVersion>)
    requires Ordered(vs) && vs != []
    ensures Ordered(vs[1..])
    ensures forall w :: w in vs[1..] ==> Precedes(vs[0], w)
  {
    var tail := vs[1..];
    forall i, j | 0 <= i < j < |tail| ensures Precedes(tail[i], tail[j]) {
      assert tail[i] == vs[i + 1] && tail[j] == vs[j + 1];
    }
    forall w | w in tail ensures Precedes(vs[0], w) {
      var j :| 0 <= j < |tail| && tail[j] == w;
      assert vs[j + 1] == w;
    }
  }

  lemma OrderedCons(head: seq<FileVersion>, rest: seq<FileVersion>)
    requires |head| <= 1 && Ordered(rest)
    requires forall h, w :: h in head && w in rest ==> Precedes(h, w)
    ensures Ordered(head + rest)
  {
    var r := head + rest;
    forall i, j | 0 <= i < j < |r| ensures Precedes(r[i], r[j]) {
      assert r[j] == rest[j - |head|];
      if i < |head| {
        assert r[i] in head && r[j] in rest;
      } else {
        assert r[i] == rest[i - |head|];
      }
    }
  }

  lemma {:induction false} SelectKeepsOrdered(vs: seq<FileVersion>, q: Query, keep: bool)
    requires Ordered(vs)
    ensures Ordered(Select(vs, q, keep))
  {
    if vs != [] {
      OrderedTail(vs);
      SelectMembers(vs[1..], q, keep);
      SelectKeepsOrdered(vs[1..], q, keep);
      OrderedCons(if Matches(vs[0], q) == keep then [vs[0]] else [], Select(vs[1..], q, keep));
    }
  }

  /** Version numbers strictly increasing along the sequence. */
  predicate Ascending(s: seq<FileVersion>)
  {
    forall i, j :: 0 <= i < j < |s| ==> s[i].versionNumber < s[j].versionNumber
  }

  /** The versions of one file, in ascending version-number order:
      `file_obj.versions.order_by("version_number")`. */
  lemma VersionsOfFileAscending(vs: seq<FileVersion>, fileId: nat)
    requires Ordered(vs)
    ensures Ascending(Filter(vs, ByFile(fileId)))
  {
    var s := Filter(vs, ByFile(fileId));
    SelectKeepsOrdered(vs, ByFile(fileId), true);
    forall i, j | 0 <= i < j < |s| ensures s[i].versionNumber < s[j].versionNumber {
      assert s[i] in s && s[j] in s;
    }
  }

  /** How many rows have a version number below n. */
  function CountBelow(s: seq<FileVersion>, n: int): (c: nat)
    ensures c <= |s|
  {
    if s == [] then 0 else (if s[0].versionNumber < n then 1 else 0) + CountBelow(s[1..], n)
  }

  lemma {:induction false} NoneBelow(s: seq<FileVersion>, n: int)
    requires forall w :: w in s ==> n <= w.versionNumber
    ensures CountBelow(s, n) == 0
  {
    if s != [] {
      assert s[0] in s;
      assert forall w :: w in s[1..] ==> w in s;
      NoneBelow(s[1..], n);
    }
  }

  /** In an ascending sequence, position i holds the version with exactly i
      smaller version numbers: indexing is ranking. */
  lemma {:induction false} IndexIsRank(s: seq<FileVersion>, i: nat)
    requires Ascending(s) && i < |s|
    ensures CountBelow(s, s[i].versionNumber) == i
  {
    var tail := s[1..];
    assert Ascending(tail) by {
      forall a, b | 0 <= a < b < |tail| ensures tail[a].versionNumber < tail[b].versionNumber {
        assert tail[a] == s[a + 1] && tail[b] == s[b + 1];
      }
    }
    if i == 0 {
      forall w | w in tail ensures s[0].versionNumber <= w.versionNumber {
        var j :| 0 <= j < |tail| && tail[j] == w;
        assert s[j + 1] == w;
      }
      NoneBelow(tail, s[0].versionNumber);
    } else {
      assert tail[i - 1] == s[i];
      IndexIsRank(tail, i - 1);
    }
  }

  /** `order_by("-version_number").first()`: a row with the greatest version
      number, None for no rows. */
  function Latest(vs: seq<FileVersion>): (r: Option<FileVersion>)
    ensures r.None? <==> vs == []
    ensures r.Some? ==> r.value in vs && forall w :: w in vs ==> w.versionNumber <= r.value.versionNumber
  {
    if vs == [] then None
    else
      match Latest(vs[1..])
      case None => Some(vs[0])
      case Some(v) => if v.versionNumber <= vs[0].versionNumber then Some(vs[0]) else Some(v)
  }

  /** In an ascending sequence the latest row is the last one. */
  lemma LatestIsLast(s: seq<FileVersion>)
    requires Ascending(s) && s != []
    ensures Latest(s) == Some(s[|s| - 1])
  {
    var v := Latest(s).value;
    var k :| 0 <= k < |s| && s[k] == v;
    assert s[|s| - 1] in s;
  }

  /** The number the next upload to `fileId` receives: one past the greatest
      existing number of that file, 1 when it has none. */
  function NextVersionNumber(vs: seq<FileVersion>, fileId: nat): (n: int)
    ensures forall w :: w in vs && w.fileId == fileId ==> w.versionNumber < n
    ensures (forall w :: w in vs ==> w.fileId != fileId) ==> n == 1
    ensures (exists w :: w in vs && w.fileId == fileId) ==>
              exists w :: w in vs && w.fileId == fileId && w.versionNumber == n - 1
  {
    match Latest(Filter(vs, ByFile(fileId)))
    case None => 1
    case Some(v) => v.versionNumber + 1
  }

  /** The next number depends only on the file's greatest number: a subset
      of the rows that keeps a row holding it gives the same next number. */
  lemma NextVersionNumberOfSubset(vs: seq<FileVersion>, sub: seq<FileVersion>, fileId: nat, top: FileVersion)
    requires forall w :: w in sub ==> w in vs
    requires top in sub && top.fileId == fileId && top.versionNumber == NextVersionNumber(vs, fileId) - 1
    ensures NextVersionNumber(sub, fileId) == NextVersionNumber(vs, fileId)
  {
    var m := NextVersionNumber(sub, fileId);
    var last :| last in sub && last.fileId == fileId && last.versionNumber == m - 1;
    assert last in vs;
  }

  /** `get(**q)` on FileVersion. */
  function Get(vs: seq<FileVersion>, q: Query): (r: GetResult<FileVersion>)
    ensures r.Got? ==> r.row in vs && Matches(r.row, q)
    ensures r.DoesNotExist? <==> forall v :: v in vs ==> !Matches(v, q)
    ensures r.MultipleObjectsReturned? <==> |Filter(vs, q)| >= 2
  {
    var found := Filter(vs, q);
    if |found| == 0 then
      DoesNotExist
    else if |found| == 1 then
      assert found[0] in found;
      Got(found[0])
    else
      assert found[0] in found;
      MultipleObjectsReturned
  }

  lemma {:induction false} SelectNone(vs: seq<FileVersion>, q: Query, keep: bool)
    requires forall v :: v in vs ==> Matches(v, q) != keep
    ensures Select(vs, q, keep) == []
  {
    if vs != [] {
      assert vs[0] in vs;
      assert forall v :: v in vs[1..] ==> v in vs;
      SelectNone(vs[1..], q, keep);
    }
  }

  /** A query naming the id matches at most one row, because ids are distinct. */
  lemma {:induction false} AtMostOneWithId(vs: seq<FileVersion>, q: Query)
    requires Ordered(vs) && q.id.Some?
    ensures |Filter(vs, q)| <= 1
  {
    if vs != [] {
      OrderedTail(vs);
      if Matches(vs[0], q) {
        SelectNone(vs[1..], q, true);
      } else {
        AtMostOneWithId(vs[1..], q);
      }
    }
  }

  /** A `get` naming the id never finds two rows. */
  lemma GetByIdIsUnique(vs: seq<FileVersion>, q: Query)
    requires Ordered(vs) && q.id.Some?
    ensures !Get(vs, q).MultipleObjectsReturned?
  {
    AtMostOneWithId(vs, q);
  }

  /** Keyword arguments of a query on File. */
  datatype FileQuery = FileQuery(id: Option<nat>, owner: Option<UserId>, name: Option<string>)

  predicate FileMatches(f: File, q: FileQuery)
  {
    && (q.id.Some? ==> f.id == q.id.value)
    && (q.owner.Some? ==> f.owner == q.owner.value)
    && (q.name.Some? ==> f.name == q.name.value)
  }

  function SelectFiles(fs: seq<File>, q: FileQuery, keep: bool): (r: seq<File>)
    ensures forall f :: f in r <==> f in fs && FileMatches(f, q) == keep
    ensures |r| <= |fs|
  {
    if fs == [] then []
    else (if FileMatches(fs[0], q) == keep then [fs[0]] else []) + SelectFiles(fs[1..], q, keep)
  }

  /** Two files that may both be stored: distinct ids, and not the same
      (owner, name) pair. */
  predicate Apart(f: File, g: File)
  {
    f.id != g.id && (f.owner != g.owner || f.name != g.name)
  }

  /** File ids are distinct and no two files share an (owner, name) pair. */
  predicate FilesOrdered(fs: seq<File>)
  {
    forall i, j :: 0 <= i < j < |fs| ==> Apart(fs[i], fs[j])
  }

  lemma OrderedFilesTail(fs: seq<File>)
    requires FilesOrdered(fs) && fs != []
    ensures FilesOrdered(fs[1..])
    ensures forall w :: w in fs[1..] ==> Apart(fs[0], w)
  {
    var tail := fs[1..];
    forall i, j | 0 <= i < j < |tail| ensures Apart(tail[i], tail[j]) {
      assert tail[i] == fs[i + 1] && tail[j] == fs[j + 1];
    }
    forall w | w in tail ensures Apart(fs[0], w) {
      var j :| 0 <= j < |tail| && tail[j] == w;
      assert fs[j + 1] == w;
    }
  }

  lemma OrderedFilesCons(head: seq<File>, rest: seq<File>)
    requires |head| <= 1 && FilesOrdered(rest)
    requires forall h, w :: h in head && w in rest ==> Apart(h, w)
    ensures FilesOrdered(head + rest)
  {
    var r := head + rest;
    forall i, j | 0 <= i < j < |r| ensures Apart(r[i], r[j]) {
      assert r[j] == rest[j - |head|];
      if i < |head| {
        assert r[i] in head && r[j] in rest;
      } else {
        assert r[i] == rest[i - |head|];
      }
    }
  }

  /** Among one owner's files, the string form (the name) identifies the file. */
  lemma StringFormIdentifiesOwnFile(fs: seq<File>, f: File, g: File)
    requires FilesOrdered(fs) && f in fs && g in fs && f.owner == g.owner
    requires f.ToString() == g.ToString()
    ensures f == g
  {
    forall a, b | 0 <= a < |fs| && 0 <= b < |fs| && a != b ensures Apart(fs[a], fs[b]) {
      if b < a {
        assert Apart(fs[b], fs[a]);
      }
    }
    var i :| 0 <= i < |fs| && fs[i] == f;
    var j :| 0 <= j < |fs| && fs[j] == g;
  }

  lemma {:induction false} SelectFilesKeepsOrdered(fs: seq<File>, q: FileQuery, keep: bool)
    requires FilesOrdered(fs)
    ensures FilesOrdered(SelectFiles(fs, q, keep))
  {
    if fs != [] {
      OrderedFilesTail(fs);
      SelectFilesKeepsOrdered(fs[1..], q, keep);
      OrderedFilesCons(if FileMatches(fs[0], q) == keep then [fs[0]] else [], SelectFiles(fs[1..], q, keep));
    }
  }

  /** `get(**q)` on File. */
  function GetFile(fs: seq<File>, q: FileQuery): (r: GetResult<File>)
    ensures r.Got? ==> r.row in fs && FileMatches(r.row, q)
    ensures r.DoesNotExist? <==> forall f :: f in fs ==> !FileMatches(f, q)
    ensures r.MultipleObjectsReturned? <==> |SelectFiles(fs, q, true)| >= 2
  {
    var found := SelectFiles(fs, q, true);
    if |found| == 0 then
      DoesNotExist
    else if |found| == 1 then
      assert found[0] in found;
      Got(found[0])
    else
      assert found[0] in found;
      MultipleObjectsReturned
  }

  lemma {:induction false} SelectFilesNone(fs: seq<File>, q: FileQuery, keep: bool)
    requires forall f :: f in fs ==> FileMatches(f, q) != keep
    ensures SelectFiles(fs, q, keep) == []
  {
    if fs != [] {
      assert fs[0] in fs;
      assert forall f :: f in fs[1..] ==> f in fs;
      SelectFilesNone(fs[1..], q, keep);
    }
  }

  /** A query naming the owner and the name, or the id, matches at most one file. */
  lemma {:induction false} AtMostOneFile(fs: seq<File>, q: FileQuery)
    requires FilesOrdered(fs) && (q.id.Some? || (q.owner.Some? && q.name.Some?))
    ensures |SelectFiles(fs, q, true)| <= 1
  {
    if fs != [] {
      OrderedFilesTail(fs);
      if FileMatches(fs[0], q) {
        SelectFilesNone(fs[1..], q, true);
      } else {
        AtMostOneFile(fs[1..], q);
      }
    }
  }

  /** `File.objects.get(name=..., user=...)` never finds two rows. */
  lemma GetFileByOwnerAndNameIsUnique(fs: seq<File>, owner: UserId, name: string)
    requires FilesOrdered(fs)
    ensures !GetFile(fs, FileQuery(None, Some(owner), Some(name))).MultipleObjectsReturned?
  {
    AtMostOneFile(fs, FileQuery(None, Some(owner), Some(name)));
  }
}
