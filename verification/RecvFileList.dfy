/** RecvFileList: received files under numbers that are handed out once, two lookups
    of a finished download, and the flag that says whether a download is finished. */
module RecvFileList {
  import opened Options

  const UINT_RANGE := 0x1_0000_0000

  type UInt = x: int | 0 <= x < UINT_RANGE

  datatype RecvFilePkg = RecvFilePkg(download: bool, uid: UInt, fid: string, pathname: string)

  datatype Entry = Entry(number: int, pkg: RecvFilePkg)

  /** The std::map as its entries in iteration order, and the counter. */
  datatype Files = Files(files: seq<Entry>, filesCount: int)

  /** The comparison of the loops: the int parameter is converted to unsigned. */
  predicate Matches(e: Entry, uid: int, fid: string) {
    e.pkg.uid == uid % UINT_RANGE && e.pkg.fid == fid
  }

  predicate Downloaded(e: Entry, uid: int, fid: string) {
    Matches(e, uid, fid) && e.pkg.download
  }

  predicate Sorted(files: seq<Entry>) {
    forall i, j | 0 <= i < j < |files| :: files[i].number < files[j].number
  }

  predicate Holds(files: seq<Entry>, number: int) {
    exists i | 0 <= i < |files| :: files[i].number == number
  }

  predicate Inv(f: Files) {
    Sorted(f.files) && forall i | 0 <= i < |f.files| :: f.files[i].number < f.filesCount
  }

  /** operator[] of the map, assigned to. */
  function Put(files: seq<Entry>, number: int, pkg: RecvFilePkg): seq<Entry> {
    if files == [] || number < files[0].number then [Entry(number, pkg)] + files
    else if number == files[0].number then [Entry(number, pkg)] + files[1..]
    else [files[0]] + Put(files[1..], number, pkg)
  }

  function Erase(files: seq<Entry>, number: int): seq<Entry> {
    if files == [] then [] else (if files[0].number == number then [] else [files[0]]) + Erase(files[1..], number)
  }

  /** The first entry with this user and file id, finished or not. */
  predicate IsFirst(files: seq<Entry>, uid: int, fid: string, i: nat) {
    && i < |files| && Matches(files[i], uid, fid)
    && forall j | 0 <= j < i :: !Matches(files[j], uid, fid)
  }

  predicate IsFirstDownloaded(files: seq<Entry>, uid: int, fid: string, i: nat) {
    && i < |files| && Downloaded(files[i], uid, fid)
    && forall j | 0 <= j < i :: !Downloaded(files[j], uid, fid)
  }

  /** Where the scan of ChangeFileState stops, or the length if it does not. */
  function FirstMatch(files: seq<Entry>, uid: int, fid: string): (i: nat)
    ensures if i < |files| then IsFirst(files, uid, fid, i)
            else i == |files| && forall j | 0 <= j < |files| :: !Matches(files[j], uid, fid)
  {
    if files == [] || Matches(files[0], uid, fid) then 0
    else
      var i := FirstMatch(files[1..], uid, fid);
      assert forall j | 1 <= j < |files| :: files[j] == files[1..][j - 1];
      1 + i
  }

  function WithDownload(e: Entry, download: bool): Entry {
    e.(pkg := e.pkg.(download := download))
  }

  // ----- runs

  datatype Event =
    | Add(pkg: RecvFilePkg)
    | Delete(number: int)
    | Change(uid: int, fid: string, download: bool)

  predicate Succeeds(f: Files, e: Event)
    requires e.Change?
  {
    var i := FirstMatch(f.files, e.uid, e.fid);
    i < |f.files| && f.files[i].pkg.download != e.download
  }

  function Apply(f: Files, e: Event): Files {
    match e
    case Add(pkg) => Files(Put(f.files, f.filesCount, pkg), f.filesCount + 1)
    case Delete(number) => f.(files := Erase(f.files, number))
    case Change(uid, fid, download) =>
      if !Succeeds(f, e) then f
      else
        var i := FirstMatch(f.files, uid, fid);
        f.(files := f.files[i := WithDownload(f.files[i], download)])
  }

  function RunFrom(f: Files, es: seq<Event>): Files
    decreases |es|
  {
    if es == [] then f else RunFrom(Apply(f, es[0]), es[1..])
  }

  // ----- the class

  class List {
    var files: seq<Entry>
    var filesCount: int

    function View(): Files
      reads this
    {
      Files(files, filesCount)
    }

    constructor ()
      ensures View() == Files([], 1) && Inv(View())
    {
      files, filesCount := [], 1;
    }

    /** The one-argument overload leaves `uid` and `download` uninitialised: they are
        whatever the memory held. */
    method AddFileName(fileName: string, uid: UInt, download: bool) returns (number: int)
      modifies this
      ensures View() == Apply(old(View()), Add(RecvFilePkg(download, uid, "", fileName)))
      ensures number == old(filesCount)
      ensures Inv(old(View())) ==> files == old(files) + [Entry(number, RecvFilePkg(download, uid, "", fileName))]
    {
      if Inv(View()) { PutAtEnd(files, filesCount, RecvFilePkg(download, uid, "", fileName)); }
      files := Put(files, filesCount, RecvFilePkg(download, uid, "", fileName));
      number := filesCount;
      filesCount := filesCount + 1;
    }

    method AddFileItem(uid: UInt, fid: string, fileName: string, downloaded: bool) returns (number: int)
      modifies this
      ensures View() == Apply(old(View()), Add(RecvFilePkg(downloaded, uid, fid, fileName)))
      ensures number == old(filesCount)
      ensures Inv(old(View())) ==> files == old(files) + [Entry(number, RecvFilePkg(downloaded, uid, fid, fileName))]
    {
      if Inv(View()) { PutAtEnd(files, filesCount, RecvFilePkg(downloaded, uid, fid, fileName)); }
      files := Put(files, filesCount, RecvFilePkg(downloaded, uid, fid, fileName));
      number := filesCount;
      filesCount := filesCount + 1;
    }

    method DeleteFileItem(number: int)
      modifies this
      ensures View() == Apply(old(View()), Delete(number))
    {
      if Holds(files, number) {
        files := Erase(files, number);
      } else {
        EraseAbsent(files, number);
      }
    }

    /** The path of the first finished download that matches. */
    method GetDownloadedFilePath(uid: int, fid: string) returns (fileName: Option<string>)
      ensures fileName.Some? ==> exists i: nat ::
        IsFirstDownloaded(files, uid, fid, i) && fileName.value == files[i].pkg.pathname
      ensures fileName.None? ==> forall i | 0 <= i < |files| :: !Downloaded(files[i], uid, fid)
    {
      var it: nat := 0;
      while it < |files|
        invariant it <= |files|
        invariant forall j | 0 <= j < it :: !Downloaded(files[j], uid, fid)
      {
        if files[it].pkg.uid == uid % UINT_RANGE && files[it].pkg.fid == fid && files[it].pkg.download {
          assert IsFirstDownloaded(files, uid, fid, it);
          return Some(files[it].pkg.pathname);
        }
        it := it + 1;
      }
      return None;
    }

    /** The number of the first finished download that matches. */
    method GetDownloadedFileNumber(uid: int, fid: string) returns (number: Option<int>)
      ensures number.Some? ==> exists i: nat :: IsFirstDownloaded(files, uid, fid, i) && number.value == files[i].number
      ensures number.None? ==> forall i | 0 <= i < |files| :: !Downloaded(files[i], uid, fid)
    {
      var it: nat := 0;
      while it < |files|
        invariant it <= |files|
        invariant forall j | 0 <= j < it :: !Downloaded(files[j], uid, fid)
      {
        if files[it].pkg.uid == uid % UINT_RANGE && files[it].pkg.fid == fid && files[it].pkg.download {
          assert IsFirstDownloaded(files, uid, fid, it);
          return Some(files[it].number);
        }
        it := it + 1;
      }
      return None;
    }

    method ChangeFileState(uid: int, fid: string, download: bool) returns (changed: bool)
      modifies this
      ensures View() == Apply(old(View()), Change(uid, fid, download))
      ensures changed <==> Succeeds(old(View()), Change(uid, fid, download))
    {
      var it: nat := 0;
      while it < |files|
        invariant it <= |files| && View() == old(View())
        invariant forall j | 0 <= j < it :: !Matches(files[j], uid, fid)
      {
        if files[it].pkg.uid == uid % UINT_RANGE && files[it].pkg.fid == fid {
          assert FirstMatch(files, uid, fid) == it;
          if files[it].pkg.download != download {
            files := files[it := WithDownload(files[it], download)];
            return true;
          } else {
            return false;
          }
        }
        it := it + 1;
      }
      return false;
    }
  }

  // ----- the map operations

  lemma {:induction false} EraseAbsent(files: seq<Entry>, number: int)
    requires !Holds(files, number)
    ensures Erase(files, number) == files
  {
    if files != [] {
      assert forall i | 0 <= i < |files| - 1 :: files[1..][i] == files[i + 1];
      assert files[0].number != number;
      EraseAbsent(files[1..], number);
    }
  }

  /** A number beyond all others goes to the end. */
  lemma {:induction false} PutAtEnd(files: seq<Entry>, number: int, pkg: RecvFilePkg)
    requires forall i | 0 <= i < |files| :: files[i].number < number
    ensures Put(files, number, pkg) == files + [Entry(number, pkg)]
  {
    if files != [] { PutAtEnd(files[1..], number, pkg); }
  }

  /** The entries after the first are sorted, and beyond its number. */
  lemma {:induction false} SortedRest(files: seq<Entry>)
    requires Sorted(files) && files != []
    ensures Sorted(files[1..]) && !Holds(files[1..], files[0].number)
  {
  }

  lemma {:induction false} TakeAndDrop(files: seq<Entry>, i: nat)
    requires 0 < i < |files|
    ensures files[1..][i - 1] == files[i]
    ensures [files[0]] + (files[1..][..i - 1] + files[1..][i..]) == files[..i] + files[i + 1..]
  {
  }

  /** Erasing from sorted entries takes out the one with that number. */
  lemma {:induction false} EraseAt(files: seq<Entry>, i: nat)
    requires Sorted(files) && i < |files|
    ensures Erase(files, files[i].number) == files[..i] + files[i + 1..]
  {
    SortedRest(files);
    if i == 0 {
      EraseAbsent(files[1..], files[0].number);
    } else {
      TakeAndDrop(files, i);
      EraseAt(files[1..], i - 1);
    }
  }

  /** Either nothing is erased, or one position is. */
  lemma {:induction false} EraseOne(files: seq<Entry>, number: int) returns (k: nat)
    requires Sorted(files)
    ensures if k < |files| then files[k].number == number && Erase(files, number) == files[..k] + files[k + 1..]
            else !Holds(files, number) && Erase(files, number) == files
  {
    k := |files|;
    if i: nat :| i < |files| && files[i].number == number {
      k := i;
      EraseAt(files, k);
    } else {
      EraseAbsent(files, number);
    }
  }

  // ----- each operation, told without the functions of the model

  /** An addition files exactly what it was given, behind all others. */
  lemma {:induction false} AddDoes(f: Files, pkg: RecvFilePkg)
    requires Inv(f)
    ensures Apply(f, Add(pkg)) == Files(f.files + [Entry(f.filesCount, pkg)], f.filesCount + 1)
  {
    PutAtEnd(f.files, f.filesCount, pkg);
  }

  /** A deletion removes the entry with that number, and no other. */
  lemma {:induction false} DeleteDoes(f: Files, number: int, e: Entry)
    requires Inv(f)
    ensures var q := Apply(f, Delete(number));
      && (e in q.files <==> e in f.files && e.number != number)
      && !Holds(q.files, number) && Inv(q) && q.filesCount == f.filesCount
  {
    DeleteKeeps(f, number);
    var q := Apply(f, Delete(number)).files;
    var k := EraseOne(f.files, number);
    if k < |f.files| {
      assert forall i | 0 <= i < |q| :: q[i] == f.files[if i < k then i else i + 1];
      if i :| 0 <= i < |f.files| && f.files[i] == e && i != k { assert q[if i < k then i else i - 1] == e; }
    }
  }

  /** A change sets the flag of the first match, if it differs, and alters no other
      field and no other entry. */
  lemma {:induction false} ChangeDoes(f: Files, uid: int, fid: string, download: bool, k: nat)
    requires k < |f.files|
    ensures var q := Apply(f, Change(uid, fid, download));
      && |q.files| == |f.files| && q.filesCount == f.filesCount
      && q.files[k].number == f.files[k].number
      && q.files[k].pkg == RecvFilePkg(
           if IsFirst(f.files, uid, fid, k) then download else f.files[k].pkg.download,
           f.files[k].pkg.uid, f.files[k].pkg.fid, f.files[k].pkg.pathname)
  {
    if IsFirst(f.files, uid, fid, k) { FirstMatchIs(f.files, uid, fid, k); }
  }

  /** A finished download that is added is found at once, unless an earlier one is. */
  lemma {:induction false} AddedIsFound(f: Files, pkg: RecvFilePkg, i: nat)
    requires Inv(f) && pkg.download
    ensures IsFirstDownloaded(Apply(f, Add(pkg)).files, pkg.uid, pkg.fid, i) <==>
      if exists k: nat :: IsFirstDownloaded(f.files, pkg.uid, pkg.fid, k)
      then IsFirstDownloaded(f.files, pkg.uid, pkg.fid, i)
      else i == |f.files|
  {
    AddDoes(f, pkg);
    var q := Apply(f, Add(pkg)).files;
    assert forall j | 0 <= j < |f.files| :: q[j] == f.files[j];
    if j: nat :| j < |f.files| && Downloaded(f.files[j], pkg.uid, pkg.fid) {
      var least := LeastDownloaded(f.files, pkg.uid, pkg.fid, j);
      assert Downloaded(q[least], pkg.uid, pkg.fid);
    } else {
      assert Downloaded(q[|f.files|], pkg.uid, pkg.fid);
    }
  }

  // ----- numbers

  lemma {:induction false} DeleteKeeps(f: Files, number: int)
    requires Inv(f)
    ensures Inv(Apply(f, Delete(number)))
    ensures forall n | Holds(Apply(f, Delete(number)).files, n) :: Holds(f.files, n)
  {
    var g := Erase(f.files, number);
    var k := EraseOne(f.files, number);
    if k < |f.files| {
      forall i | 0 <= i < |g| ensures g[i] == f.files[if i < k then i else i + 1] {}
    }
    forall n | Holds(g, n) ensures Holds(f.files, n) {
      var i :| 0 <= i < |g| && g[i].number == n;
      if k < |f.files| { assert f.files[if i < k then i else i + 1].number == n; }
    }
  }

  lemma {:induction false} ChangeKeeps(f: Files, e: Event)
    requires Inv(f) && e.Change?
    ensures Inv(Apply(f, e))
    ensures forall n | Holds(Apply(f, e).files, n) :: Holds(f.files, n)
  {
    var g := Apply(f, e).files;
    assert |g| == |f.files| && forall i | 0 <= i < |g| :: g[i].number == f.files[i].number;
    forall n | Holds(g, n) ensures Holds(f.files, n) {
      var i :| 0 <= i < |g| && g[i].number == n;
      assert f.files[i].number == n;
    }
  }

  lemma {:induction false} AddKeeps(f: Files, pkg: RecvFilePkg)
    requires Inv(f)
    ensures Inv(Apply(f, Add(pkg)))
    ensures forall n | Holds(Apply(f, Add(pkg)).files, n) :: Holds(f.files, n) || n == f.filesCount
  {
    PutAtEnd(f.files, f.filesCount, pkg);
    var g := Apply(f, Add(pkg)).files;
    forall n | Holds(g, n) ensures Holds(f.files, n) || n == f.filesCount {
      var i :| 0 <= i < |g| && g[i].number == n;
      if i < |f.files| { assert f.files[i].number == n; }
    }
  }

  lemma {:induction false} ApplyKeeps(f: Files, e: Event)
    requires Inv(f)
    ensures Inv(Apply(f, e)) && Apply(f, e).filesCount >= f.filesCount
    ensures forall n | Holds(Apply(f, e).files, n) :: Holds(f.files, n) || n == f.filesCount
  {
    match e
    case Add(pkg) => AddKeeps(f, pkg);
    case Delete(number) => DeleteKeeps(f, number);
    case Change(_, _, _) => ChangeKeeps(f, e);
  }

  /** Over any run, a number that is not in the list and has been handed out, because
      its file was deleted, is never in the list again. */
  lemma {:induction false} NumbersAreNotReused(f: Files, es: seq<Event>, n: int)
    requires Inv(f) && n < f.filesCount && !Holds(f.files, n)
    ensures Inv(RunFrom(f, es)) && !Holds(RunFrom(f, es).files, n)
    decreases |es|
  {
    if es != [] {
      ApplyKeeps(f, es[0]);
      NumbersAreNotReused(Apply(f, es[0]), es[1..], n);
    }
  }

  // ----- lookups

  /** Both lookups select the same entry: the one of least number among the finished
      downloads that match. */
  lemma {:induction false} LookupsAgree(files: seq<Entry>, uid: int, fid: string, i: nat, j: nat)
    requires Sorted(files) && IsFirstDownloaded(files, uid, fid, i) && IsFirstDownloaded(files, uid, fid, j)
    ensures i == j
    ensures forall k | 0 <= k < |files| && Downloaded(files[k], uid, fid) :: files[i].number <= files[k].number
  {
  }

  /** When ChangeFileState(uid, fid, true) has returned true, both lookups select
      exactly the entry it changed. */
  lemma {:induction false} FinishedIsFound(f: Files, uid: int, fid: string)
    requires Succeeds(f, Change(uid, fid, true))
    ensures var q := Apply(f, Change(uid, fid, true)).files;
      && IsFirstDownloaded(q, uid, fid, FirstMatch(f.files, uid, fid))
      && q[FirstMatch(f.files, uid, fid)].number == f.files[FirstMatch(f.files, uid, fid)].number
  {
    var i := FirstMatch(f.files, uid, fid);
    var q := Apply(f, Change(uid, fid, true)).files;
    forall j | 0 <= j < i ensures !Downloaded(q[j], uid, fid) { assert q[j] == f.files[j]; }
  }

  /** When ChangeFileState(uid, fid, false) has returned true, the lookups still find
      something exactly if a later entry for the same file is finished. */
  lemma {:induction false} UnfinishedMayBeFound(f: Files, uid: int, fid: string)
    requires Succeeds(f, Change(uid, fid, false))
    ensures var q, i := Apply(f, Change(uid, fid, false)).files, FirstMatch(f.files, uid, fid);
      (exists k: nat :: IsFirstDownloaded(q, uid, fid, k)) <==>
      (exists k | i < k < |f.files| :: Downloaded(f.files[k], uid, fid))
  {
    var q, i := Apply(f, Change(uid, fid, false)).files, FirstMatch(f.files, uid, fid);
    forall k | 0 <= k < |q| ensures Downloaded(q[k], uid, fid) <==> k > i && Downloaded(f.files[k], uid, fid) {
      if k != i { assert q[k] == f.files[k]; }
    }
    if k :| i < k < |f.files| && Downloaded(f.files[k], uid, fid) {
      var least := LeastDownloaded(q, uid, fid, k);
      assert IsFirstDownloaded(q, uid, fid, least);
    }
  }

  lemma {:induction false} LeastDownloaded(files: seq<Entry>, uid: int, fid: string, k: nat) returns (i: nat)
    requires k < |files| && Downloaded(files[k], uid, fid)
    ensures IsFirstDownloaded(files, uid, fid, i)
  {
    if j: nat :| j < k && Downloaded(files[j], uid, fid) { i := LeastDownloaded(files, uid, fid, j); } else { i := k; }
  }

  // ----- alternation

  predicate IsFor(e: Event, uid: int, fid: string) {
    e.Change? && e.uid % UINT_RANGE == uid % UINT_RANGE && e.fid == fid
  }

  /** The values of the successful changes of one file's state, in order. */
  function Successes(f: Files, es: seq<Event>, uid: int, fid: string): seq<bool>
    decreases |es|
  {
    if es == [] then []
    else
      (if IsFor(es[0], uid, fid) && Succeeds(f, es[0]) then [es[0].download] else [])
      + Successes(Apply(f, es[0]), es[1..], uid, fid)
  }

  lemma {:induction false} FirstMatchIs(files: seq<Entry>, uid: int, fid: string, i: nat)
    requires IsFirst(files, uid, fid, i)
    ensures FirstMatch(files, uid, fid) == i
  {
  }

  lemma {:induction false} FirstStaysOnDelete(f: Files, number: int, uid: int, fid: string, i: nat) returns (j: nat)
    requires Inv(f) && IsFirst(f.files, uid, fid, i) && number != f.files[i].number
    ensures var q := Erase(f.files, number); IsFirst(q, uid, fid, j) && q[j] == f.files[i]
  {
    var q := Erase(f.files, number);
    var k := EraseOne(f.files, number);
    j := if k < i then i - 1 else i;
    forall l | 0 <= l < |q| ensures q[l] == f.files[if l < k then l else l + 1] {}
  }

  lemma {:induction false} FirstStaysOnChange(f: Files, e: Event, uid: int, fid: string, i: nat)
    requires e.Change? && IsFirst(f.files, uid, fid, i)
    ensures var q := Apply(f, e).files;
      && IsFirst(q, uid, fid, i) && q[i].number == f.files[i].number
      && q[i].pkg.download == (if IsFor(e, uid, fid) then e.download else f.files[i].pkg.download)
    ensures IsFor(e, uid, fid) ==> (Succeeds(f, e) <==> e.download != f.files[i].pkg.download)
  {
    var q := Apply(f, e).files;
    if IsFor(e, uid, fid) {
      assert IsFirst(f.files, e.uid, e.fid, i);
      FirstMatchIs(f.files, e.uid, e.fid, i);
    }
    forall l | 0 <= l < |q| ensures Matches(q[l], uid, fid) <==> Matches(f.files[l], uid, fid) {}
  }

  /** One event that does not delete it leaves the first match the first match, and
      changes its flag exactly if it is a successful change of this file. */
  lemma {:induction false} FirstStays(f: Files, e: Event, uid: int, fid: string, i: nat) returns (j: nat)
    requires Inv(f) && IsFirst(f.files, uid, fid, i) && (e.Delete? ==> e.number != f.files[i].number)
    ensures var q := Apply(f, e).files;
      && IsFirst(q, uid, fid, j) && q[j].number == f.files[i].number
      && q[j].pkg.download == (if IsFor(e, uid, fid) then e.download else f.files[i].pkg.download)
    ensures IsFor(e, uid, fid) ==> (Succeeds(f, e) <==> e.download != f.files[i].pkg.download)
  {
    j := i;
    match e
    case Add(pkg) => PutAtEnd(f.files, f.filesCount, pkg);
    case Delete(number) => j := FirstStaysOnDelete(f, number, uid, fid, i);
    case Change(_, _, _) => FirstStaysOnChange(f, e, uid, fid, i);
  }

  /** Opposite of what the flag was, then that again, and so on. */
  predicate Alternates(v: seq<bool>, was: bool) {
    forall k | 0 <= k < |v| :: v[k] == (if k % 2 == 0 then !was else was)
  }

  /** Over any run that does not delete the first match, the successful changes of its
      state strictly alternate, starting with the opposite of what it was. */
  lemma {:induction false} SuccessesAlternate(f: Files, es: seq<Event>, uid: int, fid: string, i: nat)
    requires Inv(f) && IsFirst(f.files, uid, fid, i)
    requires forall e | e in es :: e.Delete? ==> e.number != f.files[i].number
    ensures Alternates(Successes(f, es, uid, fid), f.files[i].pkg.download)
    decreases |es|
  {
    if es != [] {
      assert es[0] in es && forall e | e in es[1..] :: e in es;
      var j := FirstStays(f, es[0], uid, fid, i);
      ApplyKeeps(f, es[0]);
      SuccessesAlternate(Apply(f, es[0]), es[1..], uid, fid, j);
      var rest := Successes(Apply(f, es[0]), es[1..], uid, fid);
      if IsFor(es[0], uid, fid) && Succeeds(f, es[0]) {
        OneMore(rest, es[0].download);
      } else {
        assert [] + rest == rest;
        assert Successes(f, es, uid, fid) == rest;
      }
    }
  }

  lemma {:induction false} OneMore(rest: seq<bool>, first: bool)
    requires Alternates(rest, first)
    ensures Alternates([first] + rest, !first)
  {
    forall k | 0 < k < |rest| + 1 ensures ([first] + rest)[k] == rest[k - 1] {}
  }
}
