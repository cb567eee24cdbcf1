# Bookmark store of the miro PDF viewer, in Dafny

This project models the in-memory bookmark store of the viewer
(`src/bookmarks.rs`). A bookmark is a name and a page. Bookmarks are
grouped into one `BookmarkSet` per document path. Each set also records a
64-bit fingerprint of the document, taken when its first bookmark is
created. The store is a `BookmarkStore` holding the sets in insertion
order, plus the bookmark name the user is still typing (`pending_name`).
It is driven by a closed set of commands (`BookmarkMessage`).

Everything is in `bookmarks.dfy`, module `Bookmarks`:

- Datatypes `Bookmark`, `BookmarkSet`, `BookmarkMessage`, with a signed
  32-bit `i32` newtype for pages and `bv64` for the fingerprint.
- Specification functions. `Find` is the index of the first set whose
  path matches, as `iter_mut().find` and `enumerate().find` locate it. `Retained` is `Vec::retain` keeping the
  bookmarks with another name. `Created` and `Deleted` give the sets after
  each operation.
- Invariants: `UniquePaths` (at most one set per path) and `NoEmptySet`
  (no set without bookmarks), together `WellFormed`.
- Class `BookmarkStore` with the fields `sets: seq<BookmarkSet>` and
  `pendingName: string`. Its methods update them in place:
  `CreateBookmark`, `DeleteBookmark` and the dispatcher `Update`. Both
  operations use the linear search `FindSet`, and deletion uses the loop
  `RetainMarks`. Each method's postcondition gives the new `sets` as
  `Created`/`Deleted` of the old value. It also says that `WellFormed` is
  preserved.
- Lemmas about the specification. They cover both cases of create and
  of delete, the invariants, and the round trip "create then delete".
- `DocumentScenario` is a client that walks through one document: two
  bookmarks in one set, then two deletions leaving no set.

Reading the file and hashing it (`hash_file`) is an input here. The
create operations take `hashed: Result<bv64>`, which is `Ok(h)` for a
fingerprint `h` and `Err` when the file could not be read. A new set
records `h`, or `0` on `Err`, as `unwrap_or(0)` does. The value is ignored
when the path already has a set, because the source hashes only when it
makes a new set. `Update` takes the same input for its `CreateBookmark`
case.

`GoTo` and `RequestNewBookmark` make `update` panic, because the
application must handle them itself. `Update` excludes them with a
precondition. The `iced::Task` that `update` returns is always
`Task::none()`, so the model drops it.

The round trip "create then delete restores the store" does not hold for
every path and name. It fails in two ways. Deletion removes every bookmark
with that name, so it fails when a bookmark with the same name already
exists under the path. It also fails when the set for the path has no
bookmarks: the new bookmark becomes its only mark, and deleting it removes
the whole set. Stores built only by the operations never hold an empty
set, but a store read from the JSON file can, because loading does not
check the invariant. `DeleteUndoesCreate` proves what holds for all
inputs: deleting right after creating equals deleting alone.
`CreateThenDeleteRestores` proves the exact restore under both hypotheses:
no bookmark with that name under the path, and no empty set.
`RoundTripDropsNamesake` and `RoundTripDropsEmptySet` give a concrete
case of each failure.

## Model

| member | source | states |
|---|---|---|
| `Bookmarks.HashOrZero` | src/bookmarks.rs:184 | a new set's hash is the fingerprint when the file was read and hashed, and 0 when reading failed |
| `Bookmarks.Find` | src/bookmarks.rs:177 | the result is the index of the first set whose path equals the given path, and `None` exactly when no set has that path |
| `Bookmarks.FindFirst` | src/bookmarks.rs:193-197 | a set with the path at index i, and no such set before i, means the search returns i |
| `Bookmarks.Retained` | src/bookmarks.rs:199 | the marks that `retain` keeps, those whose name differs from the deleted one, defined by filtering from the front; its own contract only bounds the length, and `RetainedMembers` (membership) and `RetainedAppend` (order) state what it keeps |
| `Bookmarks.RetainedMembers` | src/bookmarks.rs:199 | after `retain`, a bookmark is among the marks iff it was there before and its name differs from the deleted name |
| `Bookmarks.RetainedNoMatch` | src/bookmarks.rs:199 | `retain` with a name no bookmark has leaves the marks unchanged |
| `Bookmarks.RetainedAllMatch` | src/bookmarks.rs:199-200 | `retain` with a name every bookmark has leaves the marks empty |
| `Bookmarks.RetainedAppend` | src/bookmarks.rs:199 | filtering distributes over concatenation, so the surviving bookmarks keep their relative order |
| `Bookmarks.RetainMarks` | src/bookmarks.rs:199 | the loop that keeps the bookmarks whose name differs yields exactly `Retained` of the marks |
| `Bookmarks.Created` | src/bookmarks.rs:176-189 | the sets after `create_bookmark`: the first set for the path (by `Find`) gets the new bookmark pushed, or else a new set with that bookmark, the path and `HashOrZero` of the fingerprint is appended; `CreateOnKnownPath` and `CreateOnNewPath` state each case |
| `Bookmarks.Deleted` | src/bookmarks.rs:192-204 | the sets after `delete_bookmark`: no change when no set has the path, else the first such set's marks are filtered by `Retained` and the set is removed when nothing is left; `DeleteOnUnknownPath`, `DeleteKeepsSurvivors` and `DeleteDropsEmptiedSet` state each case |
| `Bookmarks.CreateOnKnownPath` | src/bookmarks.rs:177-180 | on a path that has a set, create appends exactly one `Bookmark{page,name}` to the end of that set's marks; the set's path and hash, the number of sets and every other set are unchanged |
| `Bookmarks.CreateOnNewPath` | src/bookmarks.rs:181-187 | on a path with no set, create appends one new set at the end holding only the new bookmark, the path, and the fingerprint or 0; earlier sets are unchanged |
| `Bookmarks.CreateTwiceSharesSet` | src/bookmarks.rs:176-189 | two creations on a new path give exactly one new set with both bookmarks in creation order |
| `Bookmarks.CreateKeepsWellFormed` | src/bookmarks.rs:176-189 | create keeps paths pairwise distinct and every set non-empty |
| `Bookmarks.DeleteOnUnknownPath` | src/bookmarks.rs:192-198 | delete on a path with no set leaves the sets unchanged |
| `Bookmarks.DeleteKeepsSurvivors` | src/bookmarks.rs:193-199 | when some bookmarks survive, the set stays at its index with its path and hash, its marks become the filtered marks, and every other set is unchanged |
| `Bookmarks.DeleteDropsEmptiedSet` | src/bookmarks.rs:199-202 | when every bookmark of the set has the deleted name, the set is removed at its index and the other sets keep their order |
| `Bookmarks.RemoveAtKeepsWellFormed` | src/bookmarks.rs:201 | removing one set keeps paths distinct and sets non-empty |
| `Bookmarks.DeleteKeepsWellFormed` | src/bookmarks.rs:192-204 | delete keeps paths pairwise distinct and every set non-empty |
| `Bookmarks.DeleteUndoesCreate` | src/bookmarks.rs:176-204 | for all inputs, deleting a name right after creating a bookmark with that name equals deleting the name alone |
| `Bookmarks.DeleteUndoesCreateOnKnownPath` | src/bookmarks.rs:177-180 | the same, when the path already has a set |
| `Bookmarks.DeleteUndoesCreateOnNewPath` | src/bookmarks.rs:181-187 | when the path has no set, create then delete gives back exactly the original sets |
| `Bookmarks.CreateThenDeleteRestores` | src/bookmarks.rs:176-204 | if no bookmark with that name exists under the path and no set is empty, create then delete restores the sets exactly |
| `Bookmarks.RoundTripDropsNamesake` | src/bookmarks.rs:199 | a bookmark that already has the name is deleted along with the new one, so the unconditional round trip fails |
| `Bookmarks.RoundTripDropsEmptySet` | src/bookmarks.rs:179-201 | on a set with no bookmarks, which has no namesake, create then delete removes the set, so the round trip also needs the no-empty-set hypothesis |
| `Bookmarks.CreateThenDeleteOnStore` | src/bookmarks.rs:176-204 | on a well-formed store, `create_bookmark` then `delete_bookmark` with a name the path does not use yet leaves the sets and the pending name as they were, and the store well formed |
| `Bookmarks.BookmarkStore.constructor` | src/bookmarks.rs:65-67 | a new store has no sets and an empty pending name, and is well formed |
| `Bookmarks.BookmarkStore.FindSet` | src/bookmarks.rs:177 | the linear search over the sets returns `Find` of the sets and the path |
| `Bookmarks.BookmarkStore.CreateBookmark` | src/bookmarks.rs:176-189 | the new sets are `Created` of the old sets; the pending name is unchanged; well-formedness is preserved |
| `Bookmarks.BookmarkStore.DeleteBookmark` | src/bookmarks.rs:192-204 | the new sets are `Deleted` of the old sets; the pending name is unchanged; well-formedness is preserved |
| `Bookmarks.BookmarkStore.Update` | src/bookmarks.rs:88-106 | `CreateBookmark` and `DeleteBookmark` act as the two operations; `PendingName(s)` sets the pending name to `s` and keeps the sets; `None` changes nothing; `GoTo` and `RequestNewBookmark` are excluded by the precondition |

## Left out

- `view` and `view_bookmark_set` (src/bookmarks.rs:108-173): UI rendering with no state change.
- `system_store`, `system_store_path` and `save` (src/bookmarks.rs:69-86): file I/O, home-directory lookup and JSON (de)serialisation. The model only notes that `pending_name` is not saved (`#[serde(skip)]`), so a reloaded store starts with an empty pending name.
- The body of `hash_file` (src/bookmarks.rs:207-210): it reads the file and calls the external XxHash64 with seed 1337. Its outcome is the `hashed` input, and only the fallback to 0 is modelled.
- `BookmarkStore.Update`: the panic on `GoTo` and `RequestNewBookmark` is a precondition. The returned `iced::Task` is dropped because it is always `Task::none()`.
- Path canonicalisation: the source only documents it as a requirement on callers and does not perform it. Paths are plain strings compared by equality. `PathBuf` equality in the source compares path components, so `/a//b/` and `/a/b` select the same set there but two sets here. This does not matter for the canonical paths that callers must pass (src/bookmarks.rs:175, 191).
- Update in place and aliasing: `Vec` pushes, `retain` and `remove` are modelled as reassignments of `seq` values held in the class's fields. The store owns its sets, so no aliasing is lost.
