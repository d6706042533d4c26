/** internal/db/wanted_books.go: an import completes at most one wanted book. */
module WantedBooks {
  import opened Wrappers
  import opened Text
  import opened WantedKeys
  import opened WantedTitles

  datatype WantedBook = WantedBook(id: int, title: string, author: string, mediaType: string, status: string,
                                   downloadHash: string, monitored: bool, completedAt: Option<int>,
                                   libraryBookId: int, downloadError: string, lastError: string)

  datatype Identity = Identity(wantedId: int, sourceId: string, title: string, author: string, mediaType: string,
                               libraryBookId: int)

  /** The answer of CompleteWantedForImport; `Failed` is a database error. */
  datatype Answer = Answer(item: Option<WantedBook>, changed: bool) | Failed

  /** The statuses the SQL text excludes, compared as they are stored. */
  predicate IsClosed(status: string) {
    || status == "ignored" || status == "downloaded" || status == "imported" || status == "completed"
    || status == "satisfied" || status == "cancelled" || status == "removed"
  }

  /** isWantedCompleteStatus */
  predicate IsCompleteStatus(status: string) {
    var s := TrimSpace(ToLower(status));
    s == "downloaded" || s == "imported" || s == "completed" || s == "satisfied" || s == "cancelled" || s == "removed"
  }

  function Cleaned(identity: Identity): Identity {
    Identity(identity.wantedId, TrimSpace(identity.sourceId), TrimSpace(identity.title), TrimSpace(identity.author),
             TrimSpace(ToLower(identity.mediaType)), identity.libraryBookId)
  }

  predicate SameMedia(row: WantedBook, identity: Identity) {
    identity.mediaType == "" || row.mediaType == identity.mediaType
  }

  /** An open row that the import identifies, by its download or by title and author. */
  predicate ActiveMatch(row: WantedBook, identity: Identity) {
    && !IsClosed(row.status) && SameMedia(row, identity)
    && ((identity.sourceId != "" && EqualFold(row.downloadHash, identity.sourceId))
        || (TitlesEquivalent(row.title, identity.title) && AuthorsCompatible(row.author, identity.author)))
  }

  function Completed(row: WantedBook, libraryBookId: int, now: int): WantedBook {
    row.(status := "imported", monitored := false, completedAt := Some(now), libraryBookId := libraryBookId,
         downloadError := "", lastError := "")
  }

  // ---------- the table ----------

  predicate DistinctIds(rows: seq<WantedBook>) {
    forall i, j :: 0 <= i < j < |rows| ==> rows[i].id != rows[j].id
  }

  function IndexOfId(rows: seq<WantedBook>, id: int): (r: Option<nat>)
    ensures r.Some? ==> r.value < |rows| && rows[r.value].id == id
    ensures r.None? ==> forall i :: 0 <= i < |rows| ==> rows[i].id != id
  {
    if rows == [] then None
    else if rows[|rows| - 1].id == id then Some(|rows| - 1)
    else IndexOfId(rows[..|rows| - 1], id)
  }

  /** markWantedCompletedLocked: the update and the read that follows it. */
  function Mark(rows: seq<WantedBook>, id: int, libraryBookId: int, now: int, updateFails: bool)
      : (seq<WantedBook>, Answer) {
    if updateFails then (rows, Failed)
    else
      var at := IndexOfId(rows, id);
      if at.None? then (rows, Failed)
      else if IsClosed(rows[at.value].status) then (rows, Answer(Some(rows[at.value]), false))
      else
        var row := Completed(rows[at.value], libraryBookId, now);
        (rows[at.value := row], Answer(Some(row), true))
  }

  /** The indices of the matching rows, in table order. */
  function Matches(rows: seq<WantedBook>, identity: Identity): (r: seq<nat>)
    ensures forall k :: 0 <= k < |r| ==> r[k] < |rows|
  {
    if rows == [] then []
    else
      var before := Matches(rows[..|rows| - 1], identity);
      if ActiveMatch(rows[|rows| - 1], identity) then before + [|rows| - 1] else before
  }

  lemma {:induction false} MatchesAreRows(rows: seq<WantedBook>, identity: Identity)
    ensures forall i :: 0 <= i < |rows| ==> (i in Matches(rows, identity) <==> ActiveMatch(rows[i], identity))
    ensures forall j, k :: 0 <= j < k < |Matches(rows, identity)|
              ==> Matches(rows, identity)[j] < Matches(rows, identity)[k]
  {
    if rows != [] {
      var front := rows[..|rows| - 1];
      hide ActiveMatch;
      MatchesAreRows(front, identity);
      var before := Matches(front, identity);
      forall i | 0 <= i < |rows|
        ensures i in Matches(rows, identity) <==> ActiveMatch(rows[i], identity)
      {
        if i < |front| {
          assert rows[i] == front[i];
        }
      }
    }
  }

  /** CompleteWantedForImport on the rows of the table. */
  function Complete(rows: seq<WantedBook>, request: Identity, now: int, updateFails: bool): (seq<WantedBook>, Answer) {
    var identity := Cleaned(request);
    if identity.wantedId > 0 then
      var at := IndexOfId(rows, identity.wantedId);
      if at.None? then (rows, Answer(None, false))
      else if IsCompleteStatus(rows[at.value].status) || !SameMedia(rows[at.value], identity) then
        (rows, Answer(Some(rows[at.value]), false))
      else Mark(rows, identity.wantedId, identity.libraryBookId, now, updateFails)
    else
      var matches := Matches(rows, identity);
      if |matches| != 1 then (rows, Answer(None, false))
      else Mark(rows, rows[matches[0]].id, identity.libraryBookId, now, updateFails)
  }

  // ---------- what a call does ----------

  /** The row is the only open one that the import identifies. */
  ghost predicate UniqueMatch(rows: seq<WantedBook>, identity: Identity, i: nat) {
    && i < |rows| && ActiveMatch(rows[i], identity)
    && forall j :: 0 <= j < |rows| && j != i ==> !ActiveMatch(rows[j], identity)
  }

  /** The row has the requested identifier, an open status and the right media type. */
  predicate NamedOpenRow(rows: seq<WantedBook>, identity: Identity, i: nat) {
    && i < |rows| && rows[i].id == identity.wantedId
    && !IsCompleteStatus(rows[i].status) && !IsClosed(rows[i].status) && SameMedia(rows[i], identity)
  }

  /** The one row the call may complete. */
  ghost predicate Target(rows: seq<WantedBook>, request: Identity, i: nat) {
    if request.wantedId > 0 then NamedOpenRow(rows, Cleaned(request), i) else UniqueMatch(rows, Cleaned(request), i)
  }

  lemma {:induction false} SingleMatch(rows: seq<WantedBook>, identity: Identity, i: nat)
    ensures UniqueMatch(rows, identity, i) <==> |Matches(rows, identity)| == 1 && Matches(rows, identity)[0] == i
  {
    MatchesAreRows(rows, identity);
    hide ActiveMatch, Matches;
    var matches := Matches(rows, identity);
    if |matches| == 1 && matches[0] == i {
      assert i in matches;
    } else if i < |rows| && i in matches {
      var k :| 0 <= k < |matches| && matches[k] == i;
      assert |matches| > 1;
      var j := if k == 0 then 1 else 0;
      assert matches[j] in matches && matches[j] != i;
    }
  }

  lemma {:induction false} IdIsUnique(rows: seq<WantedBook>, i: nat)
    requires DistinctIds(rows) && i < |rows|
    ensures IndexOfId(rows, rows[i].id) == Some(i)
  {
  }

  /** What Mark does to the row at `i`. */
  lemma {:induction false} MarkAt(rows: seq<WantedBook>, i: nat, libraryBookId: int, now: int, updateFails: bool)
    requires DistinctIds(rows) && i < |rows|
    ensures Mark(rows, rows[i].id, libraryBookId, now, updateFails) ==
            if updateFails then (rows, Failed)
            else if IsClosed(rows[i].status) then (rows, Answer(Some(rows[i]), false))
            else (rows[i := Completed(rows[i], libraryBookId, now)],
                Answer(Some(Completed(rows[i], libraryBookId, now)), true))
  {
    IdIsUnique(rows, i);
  }

  lemma {:induction false} CompletesNamed(rows: seq<WantedBook>, request: Identity, now: int, i: nat)
    requires DistinctIds(rows) && request.wantedId > 0 && NamedOpenRow(rows, Cleaned(request), i)
    ensures Complete(rows, request, now, false) ==
            (rows[i := Completed(rows[i], request.libraryBookId, now)],
             Answer(Some(Completed(rows[i], request.libraryBookId, now)), true))
  {
    IdIsUnique(rows, i);
    MarkAt(rows, i, request.libraryBookId, now, false);
    hide Mark, IndexOfId, IsCompleteStatus, IsClosed, SameMedia;
  }

  lemma {:induction false} CompletesMatched(rows: seq<WantedBook>, request: Identity, now: int, i: nat)
    requires DistinctIds(rows) && request.wantedId <= 0 && UniqueMatch(rows, Cleaned(request), i)
    ensures Complete(rows, request, now, false) ==
            (rows[i := Completed(rows[i], request.libraryBookId, now)],
             Answer(Some(Completed(rows[i], request.libraryBookId, now)), true))
  {
    SingleMatch(rows, Cleaned(request), i);
    MarkAt(rows, i, request.libraryBookId, now, false);
    assert !IsClosed(rows[i].status);
    hide Mark, IsClosed, Matches, ActiveMatch;
  }

  /** The target is completed and reported, and no other row changes. */
  lemma {:induction false} TargetIsCompleted(rows: seq<WantedBook>, request: Identity, now: int, i: nat)
    requires DistinctIds(rows) && Target(rows, request, i)
    ensures Complete(rows, request, now, false) ==
            (rows[i := Completed(rows[i], request.libraryBookId, now)],
             Answer(Some(Completed(rows[i], request.libraryBookId, now)), true))
  {
    hide Complete, NamedOpenRow, UniqueMatch;
    if request.wantedId > 0 {
      CompletesNamed(rows, request, now, i);
    } else {
      CompletesMatched(rows, request, now, i);
    }
  }

  ghost predicate HasTarget(rows: seq<WantedBook>, request: Identity) {
    exists i: nat :: Target(rows, request, i)
  }

  lemma {:induction false} NoNamedRow(rows: seq<WantedBook>, request: Identity, now: int, updateFails: bool)
    requires DistinctIds(rows) && request.wantedId > 0 && forall i: nat :: !NamedOpenRow(rows, Cleaned(request), i)
    ensures var (rows', answer) := Complete(rows, request, now, updateFails);
            rows' == rows && (answer.Answer? ==> !answer.changed)
  {
    var at := IndexOfId(rows, request.wantedId);
    if at.Some? {
      assert !NamedOpenRow(rows, Cleaned(request), at.value);
      MarkAt(rows, at.value, request.libraryBookId, now, updateFails);
    }
    hide Mark, IndexOfId, IsCompleteStatus;
  }

  lemma {:induction false} NoUniqueMatch(rows: seq<WantedBook>, request: Identity, now: int, updateFails: bool)
    requires request.wantedId <= 0 && forall i: nat :: !UniqueMatch(rows, Cleaned(request), i)
    ensures Complete(rows, request, now, updateFails) == (rows, Answer(None, false))
  {
    var matches := Matches(rows, Cleaned(request));
    if |matches| == 1 {
      SingleMatch(rows, Cleaned(request), matches[0]);
    }
  }

  lemma {:induction false} WithoutTargetNothingChanges(rows: seq<WantedBook>, request: Identity, now: int,
                                                       updateFails: bool)
    requires DistinctIds(rows) && !HasTarget(rows, request)
    ensures var (rows', answer) := Complete(rows, request, now, updateFails);
            rows' == rows && (answer.Answer? ==> !answer.changed)
  {
    hide Complete, NamedOpenRow, UniqueMatch;
    if request.wantedId > 0 {
      forall i: nat
        ensures !NamedOpenRow(rows, Cleaned(request), i)
      {
        assert !Target(rows, request, i);
      }
      NoNamedRow(rows, request, now, updateFails);
    } else {
      forall i: nat
        ensures !UniqueMatch(rows, Cleaned(request), i)
      {
        assert !Target(rows, request, i);
      }
      NoUniqueMatch(rows, request, now, updateFails);
    }
  }

  lemma {:induction false} FailedUpdateChangesNothing(rows: seq<WantedBook>, request: Identity, now: int)
    ensures Complete(rows, request, now, true).0 == rows
  {
  }

  lemma {:induction false} CompletedDiffers(row: WantedBook, libraryBookId: int, now: int)
    requires !IsClosed(row.status)
    ensures Completed(row, libraryBookId, now) != row && IsClosed(Completed(row, libraryBookId, now).status)
  {
  }

  lemma {:induction false} TargetIsOpen(rows: seq<WantedBook>, request: Identity, i: nat)
    requires Target(rows, request, i)
    ensures i < |rows| && !IsClosed(rows[i].status)
  {
    hide SameMedia, TitlesEquivalent, AuthorsCompatible, IsCompleteStatus;
  }

  /** The table changes exactly when there is a target, and the answer says so. */
  lemma {:induction false} ChangesExactlyItsTarget(rows: seq<WantedBook>, request: Identity, now: int)
    requires DistinctIds(rows)
    ensures var (rows', answer) := Complete(rows, request, now, false);
            && (rows' != rows <==> HasTarget(rows, request))
            && (answer.Answer? && answer.changed <==> HasTarget(rows, request))
  {
    hide Complete, Target, IsClosed;
    if HasTarget(rows, request) {
      var i: nat :| Target(rows, request, i);
      TargetIsOpen(rows, request, i);
      TargetIsCompleted(rows, request, now, i);
      CompletedDiffers(rows[i], request.libraryBookId, now);
    } else {
      WithoutTargetNothingChanges(rows, request, now, false);
    }
  }

  /** At most one row changes, it was open, and it keeps what identifies it. */
  ghost predicate AtMostOneCompleted(rows: seq<WantedBook>, rows': seq<WantedBook>) {
    rows' == rows
    || exists i :: 0 <= i < |rows| && OnlyRowCompleted(rows, rows', i)
  }

  predicate OnlyRowCompleted(rows: seq<WantedBook>, rows': seq<WantedBook>, i: nat)
    requires i < |rows|
  {
    && |rows'| == |rows| && (forall j :: 0 <= j < |rows| && j != i ==> rows'[j] == rows[j])
    && !IsClosed(rows[i].status) && rows'[i].status == "imported" && !rows'[i].monitored
    && rows'[i].id == rows[i].id && rows'[i].title == rows[i].title && rows'[i].author == rows[i].author
    && rows'[i].mediaType == rows[i].mediaType && rows'[i].downloadHash == rows[i].downloadHash
  }

  /** Every call, also one whose update fails. A closed row is never touched. */
  lemma {:induction false} AtMostOneRowChanges(rows: seq<WantedBook>, request: Identity, now: int, updateFails: bool)
    requires DistinctIds(rows)
    ensures var rows' := Complete(rows, request, now, updateFails).0;
            AtMostOneCompleted(rows, rows') && DistinctIds(rows')
  {
    hide Complete, Target;
    if updateFails {
      FailedUpdateChangesNothing(rows, request, now);
    } else if HasTarget(rows, request) {
      var i: nat :| Target(rows, request, i);
      TargetIsOpen(rows, request, i);
      TargetIsCompleted(rows, request, now, i);
      hide IsClosed;
      assert OnlyRowCompleted(rows, Complete(rows, request, now, false).0, i);
    } else {
      WithoutTargetNothingChanges(rows, request, now, false);
    }
  }

  lemma {:induction false} ClosedIsNoMatch(row: WantedBook, identity: Identity)
    requires IsClosed(row.status)
    ensures !ActiveMatch(row, identity)
  {
    hide SameMedia, EqualFold, TitlesEquivalent, AuthorsCompatible;
  }

  lemma {:induction false} NoTargetOnceCompleted(rows: seq<WantedBook>, request: Identity, i: nat, row: WantedBook)
    requires DistinctIds(rows) && Target(rows, request, i) && i < |rows| && row.id == rows[i].id && IsClosed(row.status)
    ensures !HasTarget(rows[i := row], request)
  {
    var rows' := rows[i := row];
    ClosedIsNoMatch(row, Cleaned(request));
    hide ActiveMatch, IsClosed, IsCompleteStatus, SameMedia, Cleaned;
    assert Cleaned(request).wantedId == request.wantedId by { CleanedKeepsId(request); }
    forall j: nat
      ensures !Target(rows', request, j)
    {
      if j == i {
        assert j < |rows'| ==> rows'[j] == row;
      } else if j < |rows| {
        assert rows'[j] == rows[j] && rows[j].id != rows[i].id;
      }
    }
  }

  lemma {:induction false} CleanedKeepsId(request: Identity)
    ensures Cleaned(request).wantedId == request.wantedId
  {
  }

  /** Running the same import's completion again, at any later time, leaves the table as the first call left it. */
  lemma {:induction false} SecondCallChangesNothing(rows: seq<WantedBook>, request: Identity, now: int, later: int,
                                                    updateFails: bool)
    requires DistinctIds(rows)
    ensures var once := Complete(rows, request, now, false).0;
            Complete(once, request, later, updateFails).0 == once
  {
    hide Complete, Target, DistinctIds;
    var once := Complete(rows, request, now, false).0;
    AtMostOneRowChanges(rows, request, now, false);
    hide AtMostOneCompleted;
    if HasTarget(rows, request) {
      var i: nat :| Target(rows, request, i);
      TargetIsOpen(rows, request, i);
      TargetIsCompleted(rows, request, now, i);
      var row := Completed(rows[i], request.libraryBookId, now);
      CompletedDiffers(rows[i], request.libraryBookId, now);
      NoTargetOnceCompleted(rows, request, i, row);
    } else {
      WithoutTargetNothingChanges(rows, request, now, false);
    }
    WithoutTargetNothingChanges(once, request, later, updateFails);
  }

  /** An open row that a request identifies, in terms of the request as it was made: the media type agrees, and
      the download is the same, or title and author are. */
  predicate Identifies(row: WantedBook, request: Identity) {
    && row.status !in ["ignored", "downloaded", "imported", "completed", "satisfied", "cancelled", "removed"]
    && (TrimSpace(ToLower(request.mediaType)) in ["", row.mediaType])
    && ((TrimSpace(request.sourceId) != "" && ToLower(row.downloadHash) == ToLower(TrimSpace(request.sourceId)))
        || (TitlesEquivalent(row.title, TrimSpace(request.title))
            && AuthorsCompatible(row.author, TrimSpace(request.author))))
  }

  lemma {:induction false} IdentifiesIsMatch(row: WantedBook, request: Identity)
    ensures ActiveMatch(row, Cleaned(request)) <==> Identifies(row, request)
  {
    hide TitlesEquivalent, AuthorsCompatible, TrimSpace, ToLower;
  }

  /** The row a request names by its number: open, not finished however its status is written, and of the media
      type asked for. */
  predicate NamesOpenRow(row: WantedBook, request: Identity) {
    && row.id == request.wantedId
    && row.status !in ["ignored", "downloaded", "imported", "completed", "satisfied", "cancelled", "removed"]
    && TrimSpace(ToLower(row.status)) !in ["downloaded", "imported", "completed", "satisfied", "cancelled", "removed"]
    && TrimSpace(ToLower(request.mediaType)) in ["", row.mediaType]
  }

  lemma {:induction false} NamesIsNamed(rows: seq<WantedBook>, request: Identity, i: nat)
    ensures NamedOpenRow(rows, Cleaned(request), i) <==> i < |rows| && NamesOpenRow(rows[i], request)
  {
    hide TrimSpace, ToLower;
  }

  /** Row `i` is the one the request means: the one it names, or else the only one it identifies. */
  ghost predicate Meant(rows: seq<WantedBook>, request: Identity, i: nat) {
    && i < |rows|
    && if request.wantedId > 0 then NamesOpenRow(rows[i], request)
       else Identifies(rows[i], request) && forall j :: 0 <= j < |rows| && j != i ==> !Identifies(rows[j], request)
  }

  lemma {:induction false} MeantIsTarget(rows: seq<WantedBook>, request: Identity, i: nat)
    ensures Target(rows, request, i) <==> Meant(rows, request, i)
  {
    hide ActiveMatch, Identifies, NamedOpenRow, NamesOpenRow, Cleaned;
    NamesIsNamed(rows, request, i);
    forall j | 0 <= j < |rows|
      ensures ActiveMatch(rows[j], Cleaned(request)) <==> Identifies(rows[j], request)
    {
      IdentifiesIsMatch(rows[j], request);
    }
  }

  /** The row as completed: imported, no longer monitored, with the time and the library book, its errors
      cleared, and everything else as it was. */
  predicate IsCompletionOf(after: WantedBook, before: WantedBook, request: Identity, now: int) {
    && after.id == before.id && after.title == before.title && after.author == before.author
    && after.mediaType == before.mediaType && after.downloadHash == before.downloadHash
    && after.status == "imported" && !after.monitored && after.completedAt == Some(now)
    && after.libraryBookId == request.libraryBookId && after.downloadError == "" && after.lastError == ""
  }

  /** The table changes exactly if there is a row the request means, and then exactly this row is completed;
      a failed update changes nothing. */
  lemma {:induction false} CompletesExactlyTheMeant(rows: seq<WantedBook>, request: Identity, now: int)
    requires DistinctIds(rows)
    ensures Complete(rows, request, now, true).0 == rows
    ensures var rows' := Complete(rows, request, now, false).0;
            && (rows' != rows <==> exists i: nat :: Meant(rows, request, i))
            && forall i: nat :: Meant(rows, request, i) ==>
                 && |rows'| == |rows| && IsCompletionOf(rows'[i], rows[i], request, now)
                 && forall j :: 0 <= j < |rows| && j != i ==> rows'[j] == rows[j]
  {
    hide Complete, Target, Meant, Completed, IsClosed;
    FailedUpdateChangesNothing(rows, request, now);
    ChangesExactlyItsTarget(rows, request, now);
    forall i: nat
      ensures Target(rows, request, i) <==> Meant(rows, request, i)
    {
      MeantIsTarget(rows, request, i);
    }
    forall i: nat | Meant(rows, request, i)
      ensures i < |rows|
      ensures Complete(rows, request, now, false).0 == rows[i := Completed(rows[i], request.libraryBookId, now)]
      ensures IsCompletionOf(Completed(rows[i], request.libraryBookId, now), rows[i], request, now)
    {
      TargetIsOpen(rows, request, i);
      TargetIsCompleted(rows, request, now, i);
      CompletedMeaning(rows[i], request, now);
    }
  }

  /** What a request by number is told: nothing if there is no such row, else the row as it is afterwards. */
  lemma {:induction false} AnswerShowsTheRow(rows: seq<WantedBook>, request: Identity, now: int)
    requires DistinctIds(rows) && request.wantedId > 0
    ensures var (rows', answer) := Complete(rows, request, now, false);
            && (answer == Answer(None, false) <==> forall i :: 0 <= i < |rows| ==> rows[i].id != request.wantedId)
            && (forall i :: 0 <= i < |rows| && rows[i].id == request.wantedId ==>
                  |rows'| == |rows| && answer.Answer? && answer.item == Some(rows'[i]))
  {
    hide Complete;
    var (rows', answer) := Complete(rows, request, now, false);
    if i: nat :| i < |rows| && rows[i].id == request.wantedId {
      NamedRowIsShown(rows, request, now, i);
      forall j | 0 <= j < |rows| && rows[j].id == request.wantedId
        ensures j == i
      {
      }
    } else {
      NoRowIsNamed(rows, request, now);
    }
  }

  lemma {:induction false} NamedRowIsShown(rows: seq<WantedBook>, request: Identity, now: int, i: nat)
    requires DistinctIds(rows) && request.wantedId > 0 && i < |rows| && rows[i].id == request.wantedId
    ensures var (rows', answer) := Complete(rows, request, now, false);
            |rows'| == |rows| && answer.Answer? && answer.item == Some(rows'[i])
  {
    hide IsCompleteStatus, IsClosed, SameMedia, Mark, Matches, IndexOfId, Completed, DistinctIds, TrimSpace, ToLower;
    IdIsUnique(rows, i);
    MarkAt(rows, i, request.libraryBookId, now, false);
    var row := Completed(rows[i], request.libraryBookId, now);
    assert |rows[i := row]| == |rows| && rows[i := row][i] == row;
  }

  lemma {:induction false} NoRowIsNamed(rows: seq<WantedBook>, request: Identity, now: int)
    requires request.wantedId > 0 && forall i :: 0 <= i < |rows| ==> rows[i].id != request.wantedId
    ensures Complete(rows, request, now, false) == (rows, Answer(None, false))
  {
    hide IsCompleteStatus, IsClosed, SameMedia, Mark, Matches, IndexOfId;
  }

  lemma {:induction false} CompletedMeaning(row: WantedBook, request: Identity, now: int)
    ensures IsCompletionOf(Completed(row, request.libraryBookId, now), row, request, now)
  {
  }

  /** The two lists of finished statuses: a stored status is normalised, and then they differ only in "ignored". */
  lemma {:induction false} StatusListsAgree(status: string)
    requires TrimSpace(ToLower(status)) == status
    ensures IsClosed(status) <==> IsCompleteStatus(status) || status == "ignored"
  {
    hide TrimSpace, ToLower;
  }

  // ---------- the methods ----------

  class WantedTable {
    var rows: seq<WantedBook>

    /** markWantedCompletedLocked */
    method MarkCompleted(id: int, libraryBookId: int, now: int, updateFails: bool) returns (answer: Answer)
      requires DistinctIds(rows)
      modifies this
      ensures (rows, answer) == Mark(old(rows), id, libraryBookId, now, updateFails)
    {
      if updateFails {
        return Failed;
      }
      var k := 0;
      while k < |rows| && rows[k].id != id
        invariant 0 <= k <= |rows|
        invariant forall j :: 0 <= j < k ==> rows[j].id != id
      {
        k := k + 1;
      }
      if k == |rows| {
        return Failed;
      }
      IdIsUnique(rows, k);
      if IsClosed(rows[k].status) {
        return Answer(Some(rows[k]), false);
      }
      var row := Completed(rows[k], libraryBookId, now);
      rows := rows[k := row];
      answer := Answer(Some(row), true);
    }

    /** CompleteWantedForImport */
    method CompleteForImport(request: Identity, now: int, updateFails: bool) returns (answer: Answer)
      requires DistinctIds(rows)
      modifies this
      ensures (rows, answer) == Complete(old(rows), request, now, updateFails)
    {
      hide IsClosed, IsCompleteStatus, SameMedia, TitlesEquivalent, AuthorsCompatible, EqualFold;
      var identity := Cleaned(request);
      if identity.wantedId > 0 {
        var at := IndexOfId(rows, identity.wantedId);
        if at.None? {
          return Answer(None, false);
        }
        if IsCompleteStatus(rows[at.value].status) || !SameMedia(rows[at.value], identity) {
          return Answer(Some(rows[at.value]), false);
        }
        answer := MarkCompleted(identity.wantedId, identity.libraryBookId, now, updateFails);
        return;
      }
      var matches: seq<nat> := [];
      for k := 0 to |rows|
        invariant rows == old(rows) && matches == Matches(rows[..k], identity)
      {
        var item := rows[k];
        assert rows[..k + 1][..k] == rows[..k];
        if IsClosed(item.status) || !SameMedia(item, identity) {
          continue;
        }
        if identity.sourceId != "" && EqualFold(item.downloadHash, identity.sourceId) {
          matches := matches + [k];
          continue;
        }
        var sameTitle := CompareTitles(item.title, identity.title);
        if !sameTitle || !AuthorsCompatible(item.author, identity.author) {
          continue;
        }
        matches := matches + [k];
      }
      assert rows[..|rows|] == rows;
      MatchesAreRows(rows, identity);
      if |matches| != 1 {
        return Answer(None, false);
      }
      answer := MarkCompleted(rows[matches[0]].id, identity.libraryBookId, now, updateFails);
    }
  }
}
