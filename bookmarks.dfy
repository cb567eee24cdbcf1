/** The in-memory bookmark store of the document viewer: bookmarks are
    grouped into one set per document path, each set records a fingerprint
    of the document taken when its first bookmark was created, and the
    store is driven by a small closed set of commands. */
module Bookmarks {

  /** The outcome of a fallible computation; `Err` stands for any I/O error. */
  datatype Result<T> = Ok(value: T) | Err

  datatype Option<T> = None | Some(value: T)

  /** A signed 32-bit integer, the type of a page number. */
  newtype i32 = x: int | -0x8000_0000 <= x < 0x8000_0000

  /** Paths are compared by plain equality; no canonicalisation happens here. */
  type Path = string

  /** One named marker at a page. Names need not be unique. */
  datatype Bookmark = Bookmark(page: i32, name: string)

  /** All bookmarks of one document, in creation order, with the document's
      fingerprint taken when the set was created. */
  datatype BookmarkSet = BookmarkSet(marks: seq<Bookmark>, fileHash: bv64, path: Path)

  /** The commands the store can be sent. The store handles all of them
      except GoTo and RequestNewBookmark, which the application must
      intercept. */
  datatype BookmarkMessage =
    | CreateBookmark(path: Path, name: string, page: i32)
    | DeleteBookmark(path: Path, name: string)
    | GoTo(path: Path, page: i32)
    | PendingName(text: string)
    | RequestNewBookmark(name: string)
    | None

  /** The hash a new set records: the fingerprint, or 0 when the file could
      not be read. */
  function HashOrZero(hashed: Result<bv64>): (h: bv64)
    ensures hashed.Err? ==> h == 0
    ensures hashed.Ok? ==> h == hashed.value
  {
    match hashed
    case Ok(h) => h
    case Err => 0
  }

  // ---------------------------------------------------------------------
  // Invariants of the store

  /** At most one set per path. */
  predicate UniquePaths(sets: seq<BookmarkSet>)
  {
    forall i, j :: 0 <= i < j < |sets| ==> sets[i].path != sets[j].path
  }

  /** No set without bookmarks. */
  predicate NoEmptySet(sets: seq<BookmarkSet>)
  {
    forall i :: 0 <= i < |sets| ==> sets[i].marks != []
  }

  predicate WellFormed(sets: seq<BookmarkSet>)
  {
    UniquePaths(sets) && NoEmptySet(sets)
  }

  /** No bookmark called `name` in any set for `path`. */
  predicate NoMarkNamed(sets: seq<BookmarkSet>, path: Path, name: string)
  {
    forall i :: 0 <= i < |sets| && sets[i].path == path ==>
      forall m :: m in sets[i].marks ==> m.name != name
  }

  // ---------------------------------------------------------------------
  // Specification functions

  /** The index of the first set for `path`, as a linear search from the
      front finds it. */
  function Find(sets: seq<BookmarkSet>, path: Path): (r: Option<nat>)
    ensures r.Some? ==> r.value < |sets| && sets[r.value].path == path
    ensures r.Some? ==> forall j :: 0 <= j < r.value ==> sets[j].path != path
    ensures r.None? ==> forall j :: 0 <= j < |sets| ==> sets[j].path != path
    decreases |sets|
  {
    if |sets| == 0 then Option.None
    else if sets[0].path == path then Some(0)
    else match Find(sets[1..], path)
      case None => Option.None
      case Some(i) => Some(i + 1)
  }

  /** The bookmarks of `marks` not called `name`, in their original order. */
  function Retained(marks: seq<Bookmark>, name: string): (r: seq<Bookmark>)
    ensures |r| <= |marks|
    decreases |marks|
  {
    if |marks| == 0 then []
    else
      var last := marks[|marks| - 1];
      Retained(marks[..|marks| - 1], name) + (if last.name != name then [last] else [])
  }

  /** The sets after creating bookmark `name` at `page` under `path`;
      `hashed` is the outcome of fingerprinting the file at `path`. */
  function Created(sets: seq<BookmarkSet>, path: Path, name: string, page: i32,
                   hashed: Result<bv64>): seq<BookmarkSet>
  {
    match Find(sets, path)
    case Some(i) => sets[i := sets[i].(marks := sets[i].marks + [Bookmark(page, name)])]
    case None => sets + [BookmarkSet([Bookmark(page, name)], HashOrZero(hashed), path)]
  }

  /** The sets after deleting every bookmark called `name` under `path`. */
  function Deleted(sets: seq<BookmarkSet>, path: Path, name: string): seq<BookmarkSet>
  {
    match Find(sets, path)
    case None => sets
    case Some(i) =>
      var kept := Retained(sets[i].marks, name);
      if kept == [] then sets[..i] + sets[i + 1..]
      else sets[i := sets[i].(marks := kept)]
  }

  // ---------------------------------------------------------------------
  // Properties of the specification

  /** Filtering distributes over concatenation, so the survivors keep their
      relative order. */
  lemma {:induction false} RetainedAppend(a: seq<Bookmark>, b: seq<Bookmark>, name: string)
    ensures Retained(a + b, name) == Retained(a, name) + Retained(b, name)
    decreases |b|
  {
    if |b| == 0 {
      assert a + b == a;
    } else {
      var last := b[|b| - 1];
      var b' := b[..|b| - 1];
      var tail := if last.name != name then [last] else [];
      assert (a + b)[..|a + b| - 1] == a + b';
      assert (a + b)[|a + b| - 1] == last;
      calc {
        Retained(a + b, name);
        Retained(a + b', name) + tail;
        { RetainedAppend(a, b', name); }
        Retained(a, name) + Retained(b', name) + tail;
        Retained(a, name) + Retained(b, name);
      }
    }
  }

  /** A bookmark survives the filter exactly when it was there and has
      another name. */
  lemma {:induction false} RetainedMembers(marks: seq<Bookmark>, name: string)
    ensures forall m :: m in Retained(marks, name) <==> m in marks && m.name != name
    decreases |marks|
  {
    if |marks| > 0 {
      var init := marks[..|marks| - 1];
      assert marks == init + [marks[|marks| - 1]];
      RetainedMembers(init, name);
    }
  }

  /** Filtering a name nobody has changes nothing. */
  lemma {:induction false} RetainedNoMatch(marks: seq<Bookmark>, name: string)
    requires forall m :: m in marks ==> m.name != name
    ensures Retained(marks, name) == marks
    decreases |marks|
  {
    if |marks| > 0 {
      var init := marks[..|marks| - 1];
      assert marks == init + [marks[|marks| - 1]];
      RetainedNoMatch(init, name);
    }
  }

  /** Filtering a name everybody has leaves nothing. */
  lemma {:induction false} RetainedAllMatch(marks: seq<Bookmark>, name: string)
    requires forall m :: m in marks ==> m.name == name
    ensures Retained(marks, name) == []
    decreases |marks|
  {
    if |marks| > 0 {
      var init := marks[..|marks| - 1];
      assert marks == init + [marks[|marks| - 1]];
      RetainedAllMatch(init, name);
    }
  }

  /** The search stops at the first set whose path matches. */
  lemma FindFirst(sets: seq<BookmarkSet>, path: Path, i: nat)
    requires i < |sets| && sets[i].path == path
    requires forall j :: 0 <= j < i ==> sets[j].path != path
    ensures Find(sets, path) == Some(i)
  {
  }

  /** The search only looks at paths: two sequences of sets with the same
      paths have the same first match. */
  lemma FindOnlyReadsPaths(s: seq<BookmarkSet>, t: seq<BookmarkSet>, path: Path)
    requires |s| == |t|
    requires forall j :: 0 <= j < |s| ==> s[j].path == t[j].path
    ensures Find(s, path) == Find(t, path)
  {
    match Find(s, path)
    case None =>
    case Some(i) =>
      assert forall j :: 0 <= j < i ==> t[j].path != path;
  }

  /** Creating under a path that already has a set appends exactly one
      bookmark to the end of that set; nothing else changes. */
  lemma CreateOnKnownPath(sets: seq<BookmarkSet>, path: Path, name: string, page: i32,
                          hashed: Result<bv64>, i: nat)
    requires i < |sets| && sets[i].path == path
    requires forall j :: 0 <= j < i ==> sets[j].path != path
    ensures |Created(sets, path, name, page, hashed)| == |sets|
    ensures Created(sets, path, name, page, hashed)[i]
         == BookmarkSet(sets[i].marks + [Bookmark(page, name)], sets[i].fileHash, path)
    ensures forall j :: 0 <= j < |sets| && j != i ==>
              Created(sets, path, name, page, hashed)[j] == sets[j]
  {
    assert Find(sets, path) == Some(i);
  }

  /** Creating under a path with no set appends one new set at the end,
      holding just the new bookmark and the fingerprint, or 0 when the file
      could not be read. */
  lemma CreateOnNewPath(sets: seq<BookmarkSet>, path: Path, name: string, page: i32,
                        hashed: Result<bv64>)
    requires forall j :: 0 <= j < |sets| ==> sets[j].path != path
    ensures Created(sets, path, name, page, hashed)
         == sets + [BookmarkSet([Bookmark(page, name)],
                                (match hashed case Ok(h) => h case Err => 0), path)]
  {
  }

  /** Two bookmarks for a new path end up in one set, in creation order. */
  lemma CreateTwiceSharesSet(sets: seq<BookmarkSet>, path: Path,
                             n1: string, p1: i32, h1: Result<bv64>,
                             n2: string, p2: i32, h2: Result<bv64>)
    requires forall j :: 0 <= j < |sets| ==> sets[j].path != path
    ensures |Created(Created(sets, path, n1, p1, h1), path, n2, p2, h2)| == |sets| + 1
    ensures Created(Created(sets, path, n1, p1, h1), path, n2, p2, h2)[..|sets|] == sets
    ensures Created(Created(sets, path, n1, p1, h1), path, n2, p2, h2)[|sets|].marks
         == [Bookmark(p1, n1), Bookmark(p2, n2)]
  {
    var once := Created(sets, path, n1, p1, h1);
    CreateOnNewPath(sets, path, n1, p1, h1);
    CreateOnKnownPath(once, path, n2, p2, h2, |sets|);
    assert Created(once, path, n2, p2, h2)[..|sets|] == sets;
  }

  /** Creation keeps at most one set per path and no empty set. */
  lemma CreateKeepsWellFormed(sets: seq<BookmarkSet>, path: Path, name: string, page: i32,
                              hashed: Result<bv64>)
    requires WellFormed(sets)
    ensures WellFormed(Created(sets, path, name, page, hashed))
  {
  }

  /** Deleting under a path with no set changes nothing. */
  lemma DeleteOnUnknownPath(sets: seq<BookmarkSet>, path: Path, name: string)
    requires forall j :: 0 <= j < |sets| ==> sets[j].path != path
    ensures Deleted(sets, path, name) == sets
  {
  }

  /** When some bookmarks survive, the set keeps its place, path and hash,
      its marks become the survivors, and every other set is unchanged. */
  lemma DeleteKeepsSurvivors(sets: seq<BookmarkSet>, path: Path, name: string, i: nat)
    requires i < |sets| && sets[i].path == path
    requires forall j :: 0 <= j < i ==> sets[j].path != path
    requires Retained(sets[i].marks, name) != []
    ensures |Deleted(sets, path, name)| == |sets|
    ensures Deleted(sets, path, name)[i]
         == BookmarkSet(Retained(sets[i].marks, name), sets[i].fileHash, path)
    ensures forall j :: 0 <= j < |sets| && j != i ==> Deleted(sets, path, name)[j] == sets[j]
  {
    assert Find(sets, path) == Some(i);
  }

  /** When no bookmark survives, the set is removed at its index and the
      other sets keep their order. */
  lemma DeleteDropsEmptiedSet(sets: seq<BookmarkSet>, path: Path, name: string, i: nat)
    requires i < |sets| && sets[i].path == path
    requires forall j :: 0 <= j < i ==> sets[j].path != path
    requires forall m :: m in sets[i].marks ==> m.name == name
    ensures Deleted(sets, path, name) == sets[..i] + sets[i + 1..]
  {
    FindFirst(sets, path, i);
    RetainedAllMatch(sets[i].marks, name);
  }

  /** Removing the set at index `i` keeps the others in order. */
  lemma RemoveAtKeepsWellFormed(sets: seq<BookmarkSet>, i: nat)
    requires WellFormed(sets) && i < |sets|
    ensures WellFormed(sets[..i] + sets[i + 1..])
  {
    var r := sets[..i] + sets[i + 1..];
    forall j | 0 <= j < |r|
      ensures r[j] == sets[if j < i then j else j + 1]
    {
    }
  }

  /** Deletion keeps at most one set per path and no empty set. */
  lemma DeleteKeepsWellFormed(sets: seq<BookmarkSet>, path: Path, name: string)
    requires WellFormed(sets)
    ensures WellFormed(Deleted(sets, path, name))
  {
    match Find(sets, path)
    case None =>
    case Some(i) =>
      if Retained(sets[i].marks, name) == [] {
        RemoveAtKeepsWellFormed(sets, i);
      }
  }

  /** Deleting a name right after creating a bookmark with that name has the
      same effect as deleting the name alone. */
  lemma DeleteUndoesCreate(sets: seq<BookmarkSet>, path: Path, name: string,
                           page: i32, hashed: Result<bv64>)
    ensures Deleted(Created(sets, path, name, page, hashed), path, name) == Deleted(sets, path, name)
  {
    match Find(sets, path)
    case Some(i) => DeleteUndoesCreateOnKnownPath(sets, path, name, page, hashed, i);
    case None => DeleteUndoesCreateOnNewPath(sets, path, name, page, hashed);
  }

  lemma DeleteUndoesCreateOnKnownPath(sets: seq<BookmarkSet>, path: Path, name: string,
                                      page: i32, hashed: Result<bv64>, i: nat)
    requires Find(sets, path) == Some(i)
    ensures Deleted(Created(sets, path, name, page, hashed), path, name) == Deleted(sets, path, name)
  {
    var mark := Bookmark(page, name);
    var old_ := sets[i];
    var grown := old_.(marks := old_.marks + [mark]);
    var created := sets[i := grown];
    assert created == Created(sets, path, name, page, hashed);
    FindOnlyReadsPaths(sets, created, path);
    assert Retained([mark], name) == [];
    RetainedAppend(old_.marks, [mark], name);
    var kept := Retained(old_.marks, name);
    assert Retained(grown.marks, name) == kept;
    if kept == [] {
      assert created[..i] == sets[..i];
      assert created[i + 1..] == sets[i + 1..];
    } else {
      assert grown.(marks := kept) == old_.(marks := kept);
    }
  }

  lemma DeleteUndoesCreateOnNewPath(sets: seq<BookmarkSet>, path: Path, name: string,
                                    page: i32, hashed: Result<bv64>)
    requires Find(sets, path).None?
    ensures Deleted(Created(sets, path, name, page, hashed), path, name) == sets
  {
    var mark := Bookmark(page, name);
    var n := |sets|;
    var created := sets + [BookmarkSet([mark], HashOrZero(hashed), path)];
    assert created == Created(sets, path, name, page, hashed);
    assert forall j :: 0 <= j < n ==> created[j] == sets[j];
    FindFirst(created, path, n);
    assert Retained([mark], name) == [];
    assert created[..n] + created[n + 1..] == sets;
  }

  /** If no bookmark with that name was stored under the path, creating and
      then deleting it restores the sets exactly. */
  lemma CreateThenDeleteRestores(sets: seq<BookmarkSet>, path: Path, name: string,
                                 page: i32, hashed: Result<bv64>)
    requires NoEmptySet(sets)
    requires NoMarkNamed(sets, path, name)
    ensures Deleted(Created(sets, path, name, page, hashed), path, name) == sets
  {
    DeleteUndoesCreate(sets, path, name, page, hashed);
    match Find(sets, path)
    case None =>
    case Some(i) =>
      RetainedNoMatch(sets[i].marks, name);
      assert sets[i].(marks := sets[i].marks) == sets[i];
  }

  /** Without the hypothesis on names the round trip fails: a bookmark that
      shares the name is deleted along with the new one. */
  lemma RoundTripDropsNamesake()
    ensures var before := [BookmarkSet([Bookmark(1, "intro")], 0, "/doc.pdf")];
            Deleted(Created(before, "/doc.pdf", "intro", 5, Err), "/doc.pdf", "intro") == []
  {
    var before := [BookmarkSet([Bookmark(1, "intro")], 0, "/doc.pdf")];
    var after := Created(before, "/doc.pdf", "intro", 5, Err);
    CreateOnKnownPath(before, "/doc.pdf", "intro", 5, Err, 0);
    assert after[0].marks == [Bookmark(1, "intro"), Bookmark(5, "intro")];
    DeleteDropsEmptiedSet(after, "/doc.pdf", "intro", 0);
  }

  /** The round trip also fails on a set with no bookmarks, which only a
      store read from disk can hold: the new bookmark is its only mark, so
      deleting it removes the whole set. */
  lemma RoundTripDropsEmptySet(path: Path, name: string, page: i32, hash: bv64)
    ensures var before := [BookmarkSet([], hash, path)];
            NoMarkNamed(before, path, name)
            && Deleted(Created(before, path, name, page, Err), path, name) == []
  {
    var before := [BookmarkSet([], hash, path)];
    var after := Created(before, path, name, page, Err);
    CreateOnKnownPath(before, path, name, page, Err, 0);
    assert after[0].marks == [Bookmark(page, name)];
    DeleteDropsEmptiedSet(after, path, name, 0);
  }

  // ---------------------------------------------------------------------
  // The loops behind the store's operations

  /** Vec::retain: keep the bookmarks not called `name`. */
  method RetainMarks(marks: seq<Bookmark>, name: string) returns (kept: seq<Bookmark>)
    ensures kept == Retained(marks, name)
  {
    kept := [];
    var k := 0;
    while k < |marks|
      invariant 0 <= k <= |marks|
      invariant kept == Retained(marks[..k], name)
    {
      assert marks[..k + 1][..k] == marks[..k];
      if marks[k].name != name {
        kept := kept + [marks[k]];
      }
      k := k + 1;
    }
    assert marks[..k] == marks;
  }

  class BookmarkStore {
    var sets: seq<BookmarkSet>
    /** The bookmark name being typed; not saved with the store. */
    var pendingName: string

    ghost predicate Valid()
      reads this
    {
      WellFormed(sets)
    }

    /** BookmarkStore::new: no sets, empty pending name. */
    constructor ()
      ensures sets == [] && pendingName == ""
      ensures Valid()
    {
      sets := [];
      pendingName := "";
    }

    /** The linear search over `sets` shared by create and delete. */
    method FindSet(path: Path) returns (r: Option<nat>)
      ensures r == Find(sets, path)
    {
      var i := 0;
      while i < |sets|
        invariant 0 <= i <= |sets|
        invariant forall j :: 0 <= j < i ==> sets[j].path != path
      {
        if sets[i].path == path {
          return Some(i);
        }
        i := i + 1;
      }
      return Option.None;
    }

    /** create_bookmark; `hashed` is what fingerprinting the file at `path`
        yields, used only when a new set is made. */
    method CreateBookmark(path: Path, name: string, page: i32, hashed: Result<bv64>)
      modifies this
      ensures sets == Created(old(sets), path, name, page, hashed)
      ensures pendingName == old(pendingName)
      ensures old(Valid()) ==> Valid()
    {
      if Valid() {
        CreateKeepsWellFormed(sets, path, name, page, hashed);
      }
      var found := FindSet(path);
      match found
      case Some(i) =>
        var target := sets[i];
        sets := sets[i := target.(marks := target.marks + [Bookmark(page, name)])];
      case None =>
        sets := sets + [BookmarkSet([Bookmark(page, name)], HashOrZero(hashed), path)];
    }

    /** delete_bookmark: drop every bookmark called `name` from the set for
        `path`, then drop the set if it is left empty. */
    method DeleteBookmark(path: Path, name: string)
      modifies this
      ensures sets == Deleted(old(sets), path, name)
      ensures pendingName == old(pendingName)
      ensures old(Valid()) ==> Valid()
    {
      if Valid() {
        DeleteKeepsWellFormed(sets, path, name);
      }
      var found := FindSet(path);
      if found.Some? {
        var i := found.value;
        var kept := RetainMarks(sets[i].marks, name);
        sets := sets[i := sets[i].(marks := kept)];
        if sets[i].marks == [] {
          sets := sets[..i] + sets[i + 1..];
        }
      }
    }

    /** update: dispatch a command. GoTo and RequestNewBookmark abort the
        program, so callers must not send them. */
    method Update(message: BookmarkMessage, hashed: Result<bv64>)
      requires !message.GoTo? && !message.RequestNewBookmark?
      modifies this
      ensures match message
        case CreateBookmark(path, name, page) =>
          sets == Created(old(sets), path, name, page, hashed) && pendingName == old(pendingName)
        case DeleteBookmark(path, name) =>
          sets == Deleted(old(sets), path, name) && pendingName == old(pendingName)
        case PendingName(text) =>
          sets == old(sets) && pendingName == text
        case _ =>
          sets == old(sets) && pendingName == old(pendingName)
      ensures old(Valid()) ==> Valid()
    {
      match message
      case CreateBookmark(path, name, page) =>
        CreateBookmark(path, name, page, hashed);
      case DeleteBookmark(path, name) =>
        DeleteBookmark(path, name);
      case PendingName(text) =>
        pendingName := text;
      case None =>
    }
  }

  /** The walk-through of one document: two bookmarks with different
      names share a set, and deleting both removes the set. */
  method DocumentScenario(doc: Path, intro: string, ch2: string, hashed: Result<bv64>)
    requires intro != ch2
  {
    var store := new BookmarkStore();
    store.CreateBookmark(doc, intro, 1, hashed);
    var first := BookmarkSet([Bookmark(1, intro)], HashOrZero(hashed), doc);
    assert store.sets == [first];
    store.CreateBookmark(doc, ch2, 10, hashed);
    CreateOnKnownPath([first], doc, ch2, 10, hashed, 0);
    var second := first.(marks := [Bookmark(1, intro), Bookmark(10, ch2)]);
    assert first.marks + [Bookmark(10, ch2)] == second.marks;
    assert store.sets == [second];
    store.DeleteBookmark(doc, intro);
    assert Retained(second.marks, intro) == [Bookmark(10, ch2)] by {
      RetainedAppend([Bookmark(1, intro)], [Bookmark(10, ch2)], intro);
      RetainedAllMatch([Bookmark(1, intro)], intro);
      RetainedNoMatch([Bookmark(10, ch2)], intro);
    }
    DeleteKeepsSurvivors([second], doc, intro, 0);
    var third := first.(marks := [Bookmark(10, ch2)]);
    assert store.sets == [third];
    store.DeleteBookmark(doc, ch2);
    DeleteDropsEmptiedSet([third], doc, ch2, 0);
    assert store.sets == [];
  }

  /** On a well-formed store, creating a bookmark under a name the path does
      not use yet and then deleting that name leaves the store as it was. */
  method CreateThenDeleteOnStore(store: BookmarkStore, path: Path, name: string, page: i32,
                                 hashed: Result<bv64>)
    requires store.Valid()
    requires NoMarkNamed(store.sets, path, name)
    modifies store
    ensures store.sets == old(store.sets) && store.pendingName == old(store.pendingName)
    ensures store.Valid()
  {
    CreateThenDeleteRestores(store.sets, path, name, page, hashed);
    store.CreateBookmark(path, name, page, hashed);
    store.DeleteBookmark(path, name);
  }
}
