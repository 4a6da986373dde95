/**
 * The client's bookmark list and search history, with local storage and the clock
 * abstracted away: what was stored is a parameter, and so is the current time.
 */
module ResearcherStorage {
  import opened Wrappers
  import opened Strings
  import opened Papers

  datatype HistoryEntry = HistoryEntry(id: string, query: string, timestamp: nat, resultCount: int)

  /** The history keeps at most this many searches. */
  const MaxHistory := 20

  /** The lists a fresh client starts from: what was stored, or empty when nothing was. */
  function Initial<T>(stored: Option<seq<T>>): (r: seq<T>)
    ensures stored.None? ==> r == []
    ensures stored.Some? ==> r == stored.value
  {
    stored.GetOr([])
  }

  /** `isBookmarked(id)`. */
  predicate IsBookmarked(bookmarks: seq<Paper>, id: string)
    ensures IsBookmarked(bookmarks, id) <==> HasId(bookmarks, id)
  {
    if |bookmarks| == 0 then false
    else bookmarks[0].id == id || IsBookmarked(bookmarks[1..], id)
  }

  /** `addBookmark(paper)`: unchanged when a paper with that id is already there, otherwise
      the paper is appended. */
  function AddBookmark(bookmarks: seq<Paper>, paper: Paper): (r: seq<Paper>)
    ensures HasId(bookmarks, paper.id) ==> r == bookmarks
    ensures !HasId(bookmarks, paper.id) ==> r == bookmarks + [paper]
    ensures IsBookmarked(r, paper.id)
    ensures DistinctIds(bookmarks) ==> DistinctIds(r)
  {
    if IsBookmarked(bookmarks, paper.id) then bookmarks
    else
      var r := bookmarks + [paper];
      assert r[|bookmarks|] == paper;
      r
  }

  /** `removeBookmark(id)`: every entry with that id goes, the others stay in order. */
  function RemoveBookmark(bookmarks: seq<Paper>, id: string): (r: seq<Paper>)
    ensures !HasId(r, id)
    ensures forall p :: p in bookmarks && p.id != id ==> p in r
    ensures forall p :: p in r ==> p in bookmarks
    ensures !HasId(bookmarks, id) ==> r == bookmarks
    ensures |r| <= |bookmarks|
  {
    if |bookmarks| == 0 then []
    else
      var rest := RemoveBookmark(bookmarks[1..], id);
      assert bookmarks == [bookmarks[0]] + bookmarks[1..];
      if bookmarks[0].id == id then
        RemovalDrop(bookmarks[0], bookmarks[1..], rest, id);
        rest
      else
        RemovalKeep(bookmarks[0], bookmarks[1..], rest, id);
        [bookmarks[0]] + rest
  }

  /** The facts the removal of `id` from `before` promises about `after`. */
  predicate Removal(before: seq<Paper>, id: string, after: seq<Paper>) {
    && !HasId(after, id)
    && (forall p :: p in before && p.id != id ==> p in after)
    && (forall p :: p in after ==> p in before)
    && (!HasId(before, id) ==> after == before)
    && |after| <= |before|
  }

  lemma RemovalDrop(head: Paper, tail: seq<Paper>, rest: seq<Paper>, id: string)
    requires head.id == id && Removal(tail, id, rest)
    ensures Removal([head] + tail, id, rest)
  {
    assert ([head] + tail)[0].id == id;
  }

  lemma RemovalKeep(head: Paper, tail: seq<Paper>, rest: seq<Paper>, id: string)
    requires head.id != id && Removal(tail, id, rest)
    ensures Removal([head] + tail, id, [head] + rest)
  {
    var before, after := [head] + tail, [head] + rest;
    assert forall i :: 1 <= i < |after| ==> after[i] == rest[i - 1];
    assert forall i :: 1 <= i < |before| ==> before[i] == tail[i - 1];
    if HasId(tail, id) {
      var k :| 0 <= k < |tail| && tail[k].id == id;
      assert before[k + 1].id == id;
    }
  }

  /** Removal works piecewise: removing from a concatenation is concatenating the removals.
      With the one-element case this pins removal down as an order-preserving filter. */
  lemma {:induction false} RemoveAppend(a: seq<Paper>, b: seq<Paper>, id: string)
    ensures RemoveBookmark(a + b, id) == RemoveBookmark(a, id) + RemoveBookmark(b, id)
    decreases |a|
  {
    if |a| > 0 {
      assert (a + b)[1..] == a[1..] + b;
      RemoveAppend(a[1..], b, id);
    } else {
      assert a + b == b;
    }
  }

  /** On a single bookmark, removal keeps it exactly when its id differs. */
  lemma RemoveSingle(p: Paper, id: string)
    ensures RemoveBookmark([p], id) == if p.id == id then [] else [p]
  {
    assert [p][1..] == [];
  }

  /** Removing twice is removing once. */
  lemma RemoveIdempotent(bookmarks: seq<Paper>, id: string)
    ensures RemoveBookmark(RemoveBookmark(bookmarks, id), id) == RemoveBookmark(bookmarks, id)
  {
  }

  /** Removing a freshly added bookmark gives back the list it was added to. */
  lemma AddThenRemove(bookmarks: seq<Paper>, paper: Paper)
    requires !HasId(bookmarks, paper.id)
    ensures RemoveBookmark(AddBookmark(bookmarks, paper), paper.id) == bookmarks
  {
    RemoveAppend(bookmarks, [paper], paper.id);
    RemoveSingle(paper, paper.id);
    assert bookmarks + [] == bookmarks;
  }

  /** `addToHistory(query, resultCount)` with the two clock readings as parameters: the new
      entry first, then at most nineteen of the previous entries, most recent first. */
  function AddToHistory(history: seq<HistoryEntry>, query: string, resultCount: int,
                        idClock: nat, stampClock: nat): (r: seq<HistoryEntry>)
    ensures |r| <= MaxHistory
    ensures |r| == if |history| < MaxHistory then |history| + 1 else MaxHistory
    ensures r[0] == HistoryEntry("search-" + NatToString(idClock), query, stampClock, resultCount)
    ensures forall i :: 1 <= i < |r| ==> r[i] == history[i - 1]
  {
    var entry := HistoryEntry("search-" + NatToString(idClock), query, stampClock, resultCount);
    var kept := if |history| <= MaxHistory - 1 then history else history[..MaxHistory - 1];
    [entry] + kept
  }

  /** `clearHistory()`. */
  function ClearHistory(history: seq<HistoryEntry>): (r: seq<HistoryEntry>)
    ensures |r| == 0
  {
    []
  }

  /** The history after a run of searches, each given as (query, result count, id clock,
      timestamp clock), starting from `history`. */
  function Record(history: seq<HistoryEntry>, searches: seq<(string, int, nat, nat)>): seq<HistoryEntry>
    decreases |searches|
  {
    if |searches| == 0 then history
    else
      var (q, n, c1, c2) := searches[|searches| - 1];
      AddToHistory(Record(history, searches[..|searches| - 1]), q, n, c1, c2)
  }

  /** After any run of searches from an empty history, the history holds the most recent
      ones, newest first, and never more than the limit. */
  lemma {:induction false} RecordMostRecentFirst(searches: seq<(string, int, nat, nat)>)
    ensures |Record([], searches)| == if |searches| < MaxHistory then |searches| else MaxHistory
    ensures forall i :: 0 <= i < |Record([], searches)| ==>
              Record([], searches)[i].query == searches[|searches| - 1 - i].0
              && Record([], searches)[i].timestamp == searches[|searches| - 1 - i].3
    decreases |searches|
  {
    if |searches| > 0 {
      var init := searches[..|searches| - 1];
      RecordMostRecentFirst(init);
      var h := Record([], init);
      var r := Record([], searches);
      forall i | 1 <= i < |r|
        ensures r[i].query == searches[|searches| - 1 - i].0
        ensures r[i].timestamp == searches[|searches| - 1 - i].3
      {
        assert r[i] == h[i - 1];
        assert init[|init| - 1 - (i - 1)] == searches[|searches| - 1 - i];
      }
    }
  }

  /** Adding bookmarks one by one from an empty list never creates two with the same id, and
      every added paper is then bookmarked. */
  lemma {:induction false} AddAllDistinct(papers: seq<Paper>)
    ensures DistinctIds(AddAll([], papers))
    ensures forall i :: 0 <= i < |papers| ==> IsBookmarked(AddAll([], papers), papers[i].id)
    decreases |papers|
  {
    if |papers| > 0 {
      var init := papers[..|papers| - 1];
      AddAllDistinct(init);
      var b := AddAll([], init);
      var last := papers[|papers| - 1];
      var r := AddBookmark(b, last);
      forall i | 0 <= i < |papers| ensures IsBookmarked(r, papers[i].id) {
        if i < |papers| - 1 {
          assert papers[i] == init[i];
          var k :| 0 <= k < |b| && b[k].id == papers[i].id;
          assert r[k] == b[k];
        }
      }
    }
  }

  /** The bookmark list after adding each of `papers` in turn. */
  function AddAll(bookmarks: seq<Paper>, papers: seq<Paper>): seq<Paper>
    decreases |papers|
  {
    if |papers| == 0 then bookmarks
    else AddBookmark(AddAll(bookmarks, papers[..|papers| - 1]), papers[|papers| - 1])
  }
}
