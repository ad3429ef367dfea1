/**
 The index page's list: the requester's notes whose modification time is not
 in the future, newest first, at most three of them.

 The database is free to order rows with equal modification times any way it
 likes; the model admits every such order.
 */
module Listing {
  import opened NoteStore

  /** How many notes the index shows. */
  const LatestCount: nat := 3

  /** A row as the query returns it: its key and its columns. */
  datatype Listed = Listed(title: Title, note: Note)

  /** The query's filters: owned by the requester, modified no later than `now`. */
  predicate Listable(store: Store, requester: UserId, now: Time, t: Title) {
    t in store && store[t].user == Some(requester) && store[t].modifyDate <= now
  }

  function ListableTitles(store: Store, requester: UserId, now: Time): set<Title> {
    set t | t in store.Keys && Listable(store, requester, now, t)
  }

  function Titles(xs: seq<Listed>): set<Title> {
    set x | x in xs :: x.title
  }

  /** Ordered by `modify_date`, descending. */
  ghost predicate NewestFirstOrder(xs: seq<Listed>) {
    forall i, j :: 0 <= i < j < |xs| ==> xs[j].note.modifyDate <= xs[i].note.modifyDate
  }

  ghost predicate DistinctTitles(xs: seq<Listed>) {
    forall i, j :: 0 <= i < j < |xs| ==> xs[i].title != xs[j].title
  }

  /** Every entry is the row the store holds under its title. */
  ghost predicate FromStore(xs: seq<Listed>, store: Store) {
    forall x :: x in xs ==> x.title in store && x.note == store[x.title]
  }

  /** Places `e` into a newest-first list, ahead of the entries no newer than it. */
  function InsertByDate(xs: seq<Listed>, e: Listed): (r: seq<Listed>)
    requires NewestFirstOrder(xs)
    ensures |r| == |xs| + 1
    ensures forall x :: x in r <==> x in xs || x == e
    ensures multiset(r) == multiset(xs) + multiset{e}
    ensures NewestFirstOrder(r)
    decreases |xs|
  {
    if |xs| == 0 then [e]
    else if xs[0].note.modifyDate <= e.note.modifyDate then [e] + xs
    else
      var rest := InsertByDate(xs[1..], e);
      TailNoNewerThanHead(xs, e, rest);
      assert xs == [xs[0]] + xs[1..];
      [xs[0]] + rest
  }

  /**
   In the recursive step of `InsertByDate`: every entry of the tail with `e`
   inserted is no newer than the head of `xs`.
   */
  lemma TailNoNewerThanHead(xs: seq<Listed>, e: Listed, rest: seq<Listed>)
    requires |xs| > 0 && NewestFirstOrder(xs)
    requires e.note.modifyDate < xs[0].note.modifyDate
    requires forall x :: x in rest ==> x in xs[1..] || x == e
    ensures forall k :: 0 <= k < |rest| ==> rest[k].note.modifyDate <= xs[0].note.modifyDate
  {
    forall k | 0 <= k < |rest|
      ensures rest[k].note.modifyDate <= xs[0].note.modifyDate
    {
      assert rest[k] in rest;
      if rest[k] != e {
        var j :| 0 <= j < |xs[1..]| && xs[1..][j] == rest[k];
        assert xs[j + 1] == rest[k];
      }
    }
  }

  /** Inserting a row adds exactly its title to the listed titles. */
  lemma InsertAddsTitle(xs: seq<Listed>, e: Listed)
    requires NewestFirstOrder(xs)
    ensures Titles(InsertByDate(xs, e)) == Titles(xs) + {e.title}
  {
  }

  /**
   In the recursive step of `InsertByDate`: the head of `xs` shares its title
   with no entry of the tail with `e` inserted.
   */
  lemma HeadTitleNotInTail(xs: seq<Listed>, e: Listed, rest: seq<Listed>)
    requires |xs| > 0 && DistinctTitles(xs)
    requires e.title !in Titles(xs)
    requires forall x :: x in rest ==> x in xs[1..] || x == e
    ensures forall j :: 0 <= j < |rest| ==> rest[j].title != xs[0].title
  {
    assert xs[0] in xs;
    forall j | 0 <= j < |rest| ensures rest[j].title != xs[0].title {
      assert rest[j] in rest;
      if rest[j] != e {
        var k :| 0 <= k < |xs[1..]| && xs[1..][k] == rest[j];
        assert xs[k + 1] == rest[j];
      }
    }
  }

  /** Inserting a row under a title not yet listed keeps the titles distinct. */
  lemma {:induction false} InsertKeepsTitlesDistinct(xs: seq<Listed>, e: Listed)
    requires NewestFirstOrder(xs) && DistinctTitles(xs)
    requires e.title !in Titles(xs)
    ensures DistinctTitles(InsertByDate(xs, e))
    decreases |xs|
  {
    var r := InsertByDate(xs, e);
    if |xs| == 0 || xs[0].note.modifyDate <= e.note.modifyDate {
      forall j | 0 < j < |r| ensures r[0].title != r[j].title {
        assert r[j] in xs;
      }
    } else {
      assert e.title !in Titles(xs[1..]);
      assert xs[0] in xs;
      InsertKeepsTitlesDistinct(xs[1..], e);
      var rest := InsertByDate(xs[1..], e);
      HeadTitleNotInTail(xs, e, rest);
      forall i, j | 0 < i < j < |r| ensures r[i].title != r[j].title {
        assert r[i] == rest[i - 1] && r[j] == rest[j - 1];
      }
    }
  }

  /** Every listable note, ordered newest first (the query before its slice). */
  method NewestFirst(store: Store, requester: UserId, now: Time) returns (xs: seq<Listed>)
    ensures NewestFirstOrder(xs)
    ensures DistinctTitles(xs)
    ensures FromStore(xs, store)
    ensures Titles(xs) == ListableTitles(store, requester, now)
    ensures |xs| == |ListableTitles(store, requester, now)|
  {
    xs := [];
    var todo := store.Keys;
    while todo != {}
      invariant todo <= store.Keys
      invariant NewestFirstOrder(xs) && DistinctTitles(xs) && FromStore(xs, store)
      invariant Titles(xs) == ListableTitles(store, requester, now) - todo
      invariant |xs| == |ListableTitles(store, requester, now) - todo|
      decreases |todo|
    {
      var t :| t in todo;
      ghost var done := ListableTitles(store, requester, now) - todo;
      if Listable(store, requester, now, t) {
        var e := Listed(t, store[t]);
        InsertAddsTitle(xs, e);
        InsertKeepsTitlesDistinct(xs, e);
        xs := InsertByDate(xs, e);
      }
      todo := todo - {t};
    }
  }

  /** `IndexView.get_queryset`: the first three of the newest-first list. */
  method LatestNotes(store: Store, requester: UserId, now: Time) returns (latest: seq<Listed>)
    ensures var n := |ListableTitles(store, requester, now)|;
      |latest| == if n < LatestCount then n else LatestCount
    ensures forall x :: x in latest ==> Listable(store, requester, now, x.title) && x.note == store[x.title]
    ensures NewestFirstOrder(latest)
    ensures DistinctTitles(latest)
    ensures forall t, i ::
              t in ListableTitles(store, requester, now) && t !in Titles(latest) && 0 <= i < |latest|
              ==> store[t].modifyDate <= latest[i].note.modifyDate
  {
    var all := NewestFirst(store, requester, now);
    latest := if |all| <= LatestCount then all else all[..LatestCount];
    forall x | x in latest
      ensures Listable(store, requester, now, x.title) && x.note == store[x.title]
    {
      assert x in all && x.title in Titles(all);
    }
    forall t, i | t in ListableTitles(store, requester, now) && t !in Titles(latest) && 0 <= i < |latest|
      ensures store[t].modifyDate <= latest[i].note.modifyDate
    {
      assert t in Titles(all);
      var x :| x in all && x.title == t;
      var j :| 0 <= j < |all| && all[j] == x;
      assert j >= |latest|;
      assert latest[i] == all[i];
    }
  }
}
