/**
 * The two flavours of the admin users list: keyset pages over an indexed sort field, and offset
 * pages over a computed sort of a capped scan.
 */
module UserPages {
  import opened Options
  import opened Decimal
  import opened Strings

  type Millis = int

  datatype User = User(id: string, email: string, createdAt: Millis, updatedAt: Millis)

  datatype SortField = CreatedAt | UpdatedAt

  function Stamp(u: User, f: SortField): Millis {
    match f
    case CreatedAt => u.createdAt
    case UpdatedAt => u.updatedAt
  }

  // ---- Order ----

  /** A position in the list: newest first, then the greater id. */
  datatype Cursor = Cursor(at: Millis, id: string)

  function KeyOf(u: User, f: SortField): Cursor {
    Cursor(Stamp(u, f), u.id)
  }

  predicate Before(a: Cursor, b: Cursor) {
    a.at > b.at || (a.at == b.at && StringLess(b.id, a.id))
  }

  lemma BeforeIsTotal(a: Cursor, b: Cursor)
    ensures Before(a, b) || a == b || Before(b, a)
    ensures !(Before(a, b) && Before(b, a))
    ensures !Before(a, a)
  {
    StringTrichotomy(a.id, b.id);
    StringIrreflexive(a.id);
  }

  lemma BeforeIsTransitive(a: Cursor, b: Cursor, c: Cursor)
    requires Before(a, b) && Before(b, c)
    ensures Before(a, c)
  {
    if a.at == b.at == c.at { StringTransitive(c.id, b.id, a.id); }
  }

  ghost predicate InOrder(us: seq<User>, f: SortField) {
    forall i, j | 0 <= i < j < |us| :: Before(KeyOf(us[i], f), KeyOf(us[j], f))
  }

  ghost predicate UniqueIds(us: seq<User>) {
    forall i, j | 0 <= i < j < |us| :: us[i].id != us[j].id
  }

  // ---- The store's sorted, filtered, limited query ----

  function InsertUser(u: User, us: seq<User>, f: SortField): seq<User> {
    if us == [] || Before(KeyOf(u, f), KeyOf(us[0], f)) then [u] + us
    else [us[0]] + InsertUser(u, us[1..], f)
  }

  /** The whole collection in list order. */
  function Sorted(us: seq<User>, f: SortField): seq<User> {
    if us == [] then [] else InsertUser(us[|us| - 1], Sorted(us[..|us| - 1], f), f)
  }

  /** The cursor's filter: a lower stamp, or the same stamp and a lower id. */
  predicate BehindCursor(u: User, f: SortField, c: Option<Cursor>) {
    c.Some? ==> Stamp(u, f) < c.value.at || (Stamp(u, f) == c.value.at && StringLess(u.id, c.value.id))
  }

  function Behind(us: seq<User>, f: SortField, c: Option<Cursor>): seq<User> {
    if us == [] then []
    else if BehindCursor(us[0], f, c) then [us[0]] + Behind(us[1..], f, c)
    else Behind(us[1..], f, c)
  }

  /** The query on the collection as it is stored, in no particular order. */
  function FindSorted(us: seq<User>, f: SortField, c: Option<Cursor>, limit: nat): seq<User> {
    Take(Sorted(BehindStored(us, f, c), f), limit)
  }

  function BehindStored(us: seq<User>, f: SortField, c: Option<Cursor>): seq<User> {
    if us == [] then []
    else if BehindCursor(us[|us| - 1], f, c) then BehindStored(us[..|us| - 1], f, c) + [us[|us| - 1]]
    else BehindStored(us[..|us| - 1], f, c)
  }

  function Take<T>(xs: seq<T>, n: nat): seq<T> {
    if n < |xs| then xs[..n] else xs
  }

  // ---- One page ----

  /** What the client sends back; a cursor that does not decode is ignored. */
  datatype CursorArg = NoCursor | Malformed | At(c: Cursor)

  function Decoded(arg: CursorArg): Option<Cursor> {
    if arg.At? then Some(arg.c) else None
  }

  function PageSize(limit: int): nat {
    if limit <= 0 || limit > 100 then 20 else limit
  }

  /**
   * listIndexedSort: one row more than the page tells whether there is another page. Ids are
   * unique in the store.
   */
  method ListIndexedSort(us: seq<User>, f: SortField, arg: CursorArg, limit: int)
    returns (page: seq<User>, next: Option<Cursor>)
    requires UniqueIds(us)
    ensures (page, next) ==
            IndexedPage(us, f, if arg.At? then Some(arg.c) else None, if 1 <= limit <= 100 then limit else 20)
  {
    var size := PageSize(limit);
    var c := Decoded(arg);
    assert c == if arg.At? then Some(arg.c) else None;
    SortedBehind(us, f, c);
    ghost var rest := Behind(Sorted(us, f), f, c);
    var docs := FindSorted(us, f, c, size + 1);
    assert docs == if |rest| > size then rest[..size + 1] else rest;
    var hasMore := |docs| > size;
    if hasMore {
      assert rest[..size + 1][..size] == rest[..size];
      docs := docs[..size];
    }
    next := None;
    if hasMore && |docs| > 0 {
      var last := docs[|docs| - 1];
      next := Some(Cursor(Stamp(last, f), last.id));
    }
    page := docs;
  }

  /** The page by the whole list: the rows behind the cursor, and a cursor if rows remain. */
  function IndexedPage(us: seq<User>, f: SortField, c: Option<Cursor>, size: nat): (seq<User>, Option<Cursor>)
    requires size > 0
  {
    var rest := Behind(Sorted(us, f), f, c);
    if |rest| > size then (rest[..size], Some(KeyOf(rest[size - 1], f))) else (rest, None)
  }

  /**
   * A page is full unless it is the last; a cursor says that rows are left, and carries the last
   * row's id and the time that the list is sorted by.
   */
  lemma IndexedPageMeans(us: seq<User>, f: SortField, c: Option<Cursor>, size: nat)
    requires size > 0
    ensures var (page, next) := IndexedPage(us, f, c, size);
            && |page| <= size
            && (next.Some? <==> |Behind(Sorted(us, f), f, c)| > |page|)
            && (next.Some? ==>
                  |page| == size && next.value.id == page[size - 1].id
                  && (f.CreatedAt? ==> next.value.at == page[size - 1].createdAt)
                  && (f.UpdatedAt? ==> next.value.at == page[size - 1].updatedAt))
  {
  }

  lemma {:induction false} InsertMembers(u: User, us: seq<User>, f: SortField)
    ensures multiset(InsertUser(u, us, f)) == multiset(us) + multiset{u}
    decreases |us|
  {
    if us != [] && !Before(KeyOf(u, f), KeyOf(us[0], f)) {
      InsertMembers(u, us[1..], f);
      assert us == [us[0]] + us[1..];
    }
  }

  lemma PrependInOrder(u: User, us: seq<User>, f: SortField)
    requires InOrder(us, f) && forall x | x in us :: Before(KeyOf(u, f), KeyOf(x, f))
    ensures InOrder([u] + us, f)
  {
    assert forall j | 0 <= j < |us| :: us[j] in us;
  }

  lemma BeforeHead(u: User, us: seq<User>, f: SortField)
    requires us != [] && InOrder(us, f) && Before(KeyOf(u, f), KeyOf(us[0], f))
    ensures forall x | x in us :: Before(KeyOf(u, f), KeyOf(x, f))
  {
    forall x | x in us ensures Before(KeyOf(u, f), KeyOf(x, f)) {
      var k :| 0 <= k < |us| && us[k] == x;
      if k > 0 { BeforeIsTransitive(KeyOf(u, f), KeyOf(us[0], f), KeyOf(us[k], f)); }
    }
  }

  lemma HeadBeforeRest(us: seq<User>, f: SortField)
    requires us != [] && InOrder(us, f)
    ensures forall x | x in us[1..] :: Before(KeyOf(us[0], f), KeyOf(x, f))
  {
  }

  lemma {:induction false} InsertInOrder(u: User, us: seq<User>, f: SortField)
    requires InOrder(us, f) && forall x | x in us :: x.id != u.id
    ensures InOrder(InsertUser(u, us, f), f)
    decreases |us|
  {
    if us == [] {
    } else if Before(KeyOf(u, f), KeyOf(us[0], f)) {
      BeforeHead(u, us, f);
      PrependInOrder(u, us, f);
    } else {
      BeforeIsTotal(KeyOf(u, f), KeyOf(us[0], f));
      InsertInOrder(u, us[1..], f);
      InsertMembers(u, us[1..], f);
      HeadBeforeRest(us, f);
      var rest := InsertUser(u, us[1..], f);
      forall x | x in rest ensures x == u || x in us[1..] {
        assert x in multiset(rest);
      }
      PrependInOrder(us[0], rest, f);
    }
  }

  lemma {:induction false} SortedSpec(us: seq<User>, f: SortField)
    ensures multiset(Sorted(us, f)) == multiset(us)
    ensures UniqueIds(us) ==> InOrder(Sorted(us, f), f)
    decreases |us|
  {
    if us != [] {
      var n := |us| - 1;
      assert us == us[..n] + [us[n]];
      SortedSpec(us[..n], f);
      InsertMembers(us[n], Sorted(us[..n], f), f);
      if UniqueIds(us) {
        forall x | x in Sorted(us[..n], f)
          ensures x.id != us[n].id
        {
          assert x in multiset(us[..n]);
        }
        InsertInOrder(us[n], Sorted(us[..n], f), f);
      }
    }
  }

  lemma InsertInFront(u: User, us: seq<User>, f: SortField)
    requires forall x | x in us :: Before(KeyOf(u, f), KeyOf(x, f))
    ensures InsertUser(u, us, f) == [u] + us
  {
    if us != [] { assert us[0] in us; }
  }

  lemma {:induction false} BehindElements(us: seq<User>, f: SortField, c: Option<Cursor>)
    ensures forall x :: x in Behind(us, f, c) <==> x in us && BehindCursor(x, f, c)
    decreases |us|
  {
    if us != [] {
      BehindElements(us[1..], f, c);
      assert us == [us[0]] + us[1..];
    }
  }

  lemma {:induction false} BehindInOrder(us: seq<User>, f: SortField, c: Option<Cursor>)
    requires InOrder(us, f)
    ensures InOrder(Behind(us, f, c), f)
    decreases |us|
  {
    if us != [] {
      var b := Behind(us[1..], f, c);
      BehindInOrder(us[1..], f, c);
      BehindElements(us[1..], f, c);
      forall k | 0 <= k < |b|
        ensures Before(KeyOf(us[0], f), KeyOf(b[k], f))
      {
        assert b[k] in b;
        assert b[k] in us[1..];
      }
    }
  }

  lemma {:induction false} BehindNothing(us: seq<User>, f: SortField)
    ensures Behind(us, f, None) == us
    decreases |us|
  {
    if us != [] { BehindNothing(us[1..], f); }
  }

  lemma BehindMembers(us: seq<User>, f: SortField, c: Option<Cursor>)
    ensures forall x :: x in Behind(us, f, c) <==> x in us && BehindCursor(x, f, c)
    ensures InOrder(us, f) ==> InOrder(Behind(us, f, c), f)
  {
    BehindElements(us, f, c);
    if InOrder(us, f) { BehindInOrder(us, f, c); }
  }

  /** Filtering and inserting in order commute. */
  lemma {:induction false} BehindInsert(u: User, us: seq<User>, f: SortField, c: Option<Cursor>)
    requires InOrder(us, f)
    ensures Behind(InsertUser(u, us, f), f, c) ==
            if BehindCursor(u, f, c) then InsertUser(u, Behind(us, f, c), f) else Behind(us, f, c)
    decreases |us|
  {
    if us == [] {
    } else if Before(KeyOf(u, f), KeyOf(us[0], f)) {
      assert ([u] + us)[1..] == us;
      BehindMembers(us, f, c);
      BeforeHead(u, us, f);
      InsertInFront(u, Behind(us, f, c), f);
    } else {
      var rest := InsertUser(u, us[1..], f);
      assert ([us[0]] + rest)[1..] == rest;
      BehindInsert(u, us[1..], f, c);
      if BehindCursor(us[0], f, c) {
        var b := Behind(us[1..], f, c);
        assert ([us[0]] + b)[1..] == b;
      }
    }
  }

  lemma SortedAppend(us: seq<User>, u: User, f: SortField)
    ensures Sorted(us + [u], f) == InsertUser(u, Sorted(us, f), f)
  {
    assert (us + [u])[..|us|] == us;
  }

  /** The store's answer, filtered before it is sorted, is the whole list filtered. */
  lemma {:induction false} SortedBehind(us: seq<User>, f: SortField, c: Option<Cursor>)
    requires UniqueIds(us)
    ensures Sorted(BehindStored(us, f, c), f) == Behind(Sorted(us, f), f, c)
    decreases |us|
  {
    if us != [] {
      var n := |us| - 1;
      var before, u := us[..n], us[n];
      assert us == before + [u];
      SortedBehind(before, f, c);
      SortedSpec(before, f);
      SortedAppend(before, u, f);
      SortedAppend(BehindStored(before, f, c), u, f);
      BehindInsert(u, Sorted(before, f), f, c);
    }
  }

  // ---- Following the cursors ----

  /** Behind the k-th row of a list in order are the rows after it. */
  lemma {:induction false} BehindRow(us: seq<User>, f: SortField, k: nat)
    requires InOrder(us, f) && k < |us|
    ensures Behind(us, f, Some(KeyOf(us[k], f))) == us[k + 1..]
    decreases |us|
  {
    var c := KeyOf(us[k], f);
    BeforeIsTotal(c, KeyOf(us[0], f));
    if k == 0 {
      BehindAll(us[1..], f, c);
    } else {
      BehindRow(us[1..], f, k - 1);
      assert Before(KeyOf(us[0], f), c);
      assert us[1..][k - 1] == us[k];
    }
  }

  lemma {:induction false} BehindAll(us: seq<User>, f: SortField, c: Cursor)
    requires forall k | 0 <= k < |us| :: Before(c, KeyOf(us[k], f))
    ensures Behind(us, f, Some(c)) == us
    decreases |us|
  {
    if us != [] {
      assert Before(c, KeyOf(us[0], f));
      BehindAll(us[1..], f, c);
    }
  }

  /** A cursor further down the list can be applied to what an earlier one left. */
  lemma {:induction false} BehindTwice(us: seq<User>, f: SortField, c: Option<Cursor>, d: Cursor)
    requires c.Some? ==> Before(c.value, d)
    ensures Behind(Behind(us, f, c), f, Some(d)) == Behind(us, f, Some(d))
    decreases |us|
  {
    if us != [] {
      BehindTwice(us[1..], f, c, d);
      if BehindCursor(us[0], f, Some(d)) && c.Some? {
        BeforeIsTransitive(c.value, d, KeyOf(us[0], f));
      }
      if BehindCursor(us[0], f, c) {
        var b := Behind(us[1..], f, c);
        assert ([us[0]] + b)[1..] == b;
      }
    }
  }

  /** Behind a row of what a cursor left are the rows after it. */
  lemma BehindNext(us: seq<User>, f: SortField, c: Option<Cursor>, k: nat)
    requires InOrder(us, f) && k < |Behind(us, f, c)|
    ensures Behind(us, f, Some(KeyOf(Behind(us, f, c)[k], f))) == Behind(us, f, c)[k + 1..]
  {
    var rest := Behind(us, f, c);
    BehindMembers(us, f, c);
    assert rest[k] in rest;
    BehindTwice(us, f, c, KeyOf(rest[k], f));
    BehindRow(rest, f, k);
  }

  /** The rows that the next page starts from are the rows this page left. */
  lemma NextPageContinues(us: seq<User>, f: SortField, c: Option<Cursor>, size: nat)
    requires UniqueIds(us) && size > 0 && IndexedPage(us, f, c, size).1.Some?
    ensures Behind(Sorted(us, f), f, c)
         == IndexedPage(us, f, c, size).0 + Behind(Sorted(us, f), f, IndexedPage(us, f, c, size).1)
    ensures |Behind(Sorted(us, f), f, IndexedPage(us, f, c, size).1)| < |Behind(Sorted(us, f), f, c)|
  {
    var all := Sorted(us, f);
    SortedSpec(us, f);
    BehindNext(all, f, c, size - 1);
    var rest := Behind(all, f, c);
    assert rest == rest[..size] + rest[size..];
  }

  /** All pages from a cursor on, one after the other. */
  function Follow(us: seq<User>, f: SortField, c: Option<Cursor>, size: nat): seq<User>
    requires UniqueIds(us) && size > 0
    decreases |Behind(Sorted(us, f), f, c)|
  {
    var (page, next) := IndexedPage(us, f, c, size);
    if next.None? then page
    else
      NextPageContinues(us, f, c, size);
      page + Follow(us, f, next, size)
  }

  lemma {:induction false} FollowIsTheRest(us: seq<User>, f: SortField, c: Option<Cursor>, size: nat)
    requires UniqueIds(us) && size > 0
    ensures Follow(us, f, c, size) == Behind(Sorted(us, f), f, c)
    decreases |Behind(Sorted(us, f), f, c)|
  {
    var (page, next) := IndexedPage(us, f, c, size);
    if next.Some? {
      NextPageContinues(us, f, c, size);
      FollowIsTheRest(us, f, next, size);
    }
  }

  /**
   * Over a fixed collection the pages from the first on are the whole list, in order, each row
   * once, however many stamps are equal.
   */
  lemma PagesAreTheWholeList(us: seq<User>, f: SortField, size: nat)
    requires UniqueIds(us) && size > 0
    ensures Follow(us, f, None, size) == Sorted(us, f)
    ensures InOrder(Sorted(us, f), f) && multiset(Sorted(us, f)) == multiset(us)
  {
    FollowIsTheRest(us, f, None, size);
    BehindNothing(Sorted(us, f), f);
    SortedSpec(us, f);
  }

  /** By sign-up: the latest first, and among those of one instant the greater id. */
  lemma ListedBySignUp(us: seq<User>, size: nat)
    requires UniqueIds(us) && size > 0
    ensures var listed := Follow(us, CreatedAt, None, size);
            forall i, j | 0 <= i < j < |listed| ::
              listed[i].createdAt > listed[j].createdAt
              || (listed[i].createdAt == listed[j].createdAt && StringLess(listed[j].id, listed[i].id))
  {
    PagesAreTheWholeList(us, CreatedAt, size);
    var listed := Follow(us, CreatedAt, None, size);
    forall i, j | 0 <= i < j < |listed|
      ensures listed[i].createdAt > listed[j].createdAt
              || (listed[i].createdAt == listed[j].createdAt && StringLess(listed[j].id, listed[i].id))
    {
      assert Before(KeyOf(listed[i], CreatedAt), KeyOf(listed[j], CreatedAt));
    }
  }

  /** By activity: the same with the time of the last update. */
  lemma ListedByActivity(us: seq<User>, size: nat)
    requires UniqueIds(us) && size > 0
    ensures var listed := Follow(us, UpdatedAt, None, size);
            forall i, j | 0 <= i < j < |listed| ::
              listed[i].updatedAt > listed[j].updatedAt
              || (listed[i].updatedAt == listed[j].updatedAt && StringLess(listed[j].id, listed[i].id))
  {
    PagesAreTheWholeList(us, UpdatedAt, size);
    var listed := Follow(us, UpdatedAt, None, size);
    forall i, j | 0 <= i < j < |listed|
      ensures listed[i].updatedAt > listed[j].updatedAt
              || (listed[i].updatedAt == listed[j].updatedAt && StringLess(listed[j].id, listed[i].id))
    {
      assert Before(KeyOf(listed[i], UpdatedAt), KeyOf(listed[j], UpdatedAt));
    }
  }

  // ---- Following the cursors while the collection changes ----

  /** The k-th page is served from the k-th state of the collection. */
  function FollowChanging(states: seq<seq<User>>, f: SortField, c: Option<Cursor>, size: nat): seq<User>
    requires size > 0
  {
    if states == [] then []
    else
      var (page, next) := IndexedPage(states[0], f, c, size);
      if next.None? then page else page + FollowChanging(states[1..], f, next, size)
  }

  /** The client reached a page without a next cursor. */
  predicate Finishes(states: seq<seq<User>>, f: SortField, c: Option<Cursor>, size: nat)
    requires size > 0
  {
    states != [] &&
    var (page, next) := IndexedPage(states[0], f, c, size);
    next.None? || Finishes(states[1..], f, next, size)
  }

  /** The user is there all the time, unchanged. */
  ghost predicate Stays(states: seq<seq<User>>, u: User) {
    forall k | 0 <= k < |states| :: UniqueIds(states[k]) && u in states[k]
  }

  lemma {:induction false} OccursOnce(us: seq<User>, f: SortField, u: User)
    requires InOrder(us, f)
    ensures multiset(us)[u] == if u in us then 1 else 0
    decreases |us|
  {
    if us != [] {
      OccursOnce(us[1..], f, u);
      assert us == [us[0]] + us[1..];
      forall k | 0 < k < |us|
        ensures us[k] != us[0]
      {
        BeforeIsTotal(KeyOf(us[0], f), KeyOf(us[k], f));
      }
      assert us[0] !in us[1..];
    }
  }

  /** A row of the list behind the cursor is listed or left, and the next cursor tells which. */
  lemma SplitByNext(us: seq<User>, f: SortField, c: Option<Cursor>, size: nat, u: User)
    requires UniqueIds(us) && size > 0 && IndexedPage(us, f, c, size).1.Some?
    ensures var (page, next) := IndexedPage(us, f, c, size);
            && InOrder(page, f)
            && (u in page <==> u in us && BehindCursor(u, f, c) && !BehindCursor(u, f, next))
            && (u in us && BehindCursor(u, f, next) ==> BehindCursor(u, f, c))
  {
    var all := Sorted(us, f);
    SortedSpec(us, f);
    assert u in multiset(all) <==> u in us;
    BehindMembers(all, f, c);
    NextPageContinues(us, f, c, size);
    var (page, next) := IndexedPage(us, f, c, size);
    BehindMembers(all, f, next);
    SplitDisjoint(page, Behind(all, f, next), f, u);
  }

  /** The two parts of a list in order share no row. */
  lemma SplitDisjoint(xs: seq<User>, ys: seq<User>, f: SortField, u: User)
    requires InOrder(xs + ys, f)
    ensures InOrder(xs, f)
    ensures u in xs + ys <==> u in xs || u in ys
    ensures !(u in xs && u in ys)
  {
    assert forall i | 0 <= i < |xs| :: (xs + ys)[i] == xs[i];
    if u in xs && u in ys {
      var i :| 0 <= i < |xs| && xs[i] == u;
      var j :| 0 <= j < |ys| && ys[j] == u;
      assert (xs + ys)[|xs| + j] == u;
      BeforeIsTotal(KeyOf(u, f), KeyOf(u, f));
    }
  }

  /** How often one page lists the user, and on which side of the next cursor the user then is. */
  lemma PageListsOnce(us: seq<User>, f: SortField, c: Option<Cursor>, size: nat, u: User)
    requires UniqueIds(us) && u in us && size > 0
    ensures var (page, next) := IndexedPage(us, f, c, size);
            && (next.None? ==> multiset(page)[u] == if BehindCursor(u, f, c) then 1 else 0)
            && (next.Some? ==> multiset(page)[u] == if BehindCursor(u, f, c) && !BehindCursor(u, f, next) then 1 else 0)
            && (next.Some? && BehindCursor(u, f, next) ==> BehindCursor(u, f, c))
  {
    var (page, next) := IndexedPage(us, f, c, size);
    if next.Some? {
      SplitByNext(us, f, c, size, u);
      OccursOnce(page, f, u);
    } else {
      var all := Sorted(us, f);
      SortedSpec(us, f);
      assert u in multiset(all);
      BehindMembers(all, f, c);
      OccursOnce(page, f, u);
    }
  }

  lemma {:induction false} ListedOnceOrPassed(states: seq<seq<User>>, f: SortField, c: Option<Cursor>, size: nat,
                                              u: User)
    requires size > 0 && Stays(states, u)
    ensures !BehindCursor(u, f, c) ==> multiset(FollowChanging(states, f, c, size))[u] == 0
    ensures BehindCursor(u, f, c) && Finishes(states, f, c, size) ==>
              multiset(FollowChanging(states, f, c, size))[u] == 1
    decreases |states|
  {
    if states != [] {
      var (page, next) := IndexedPage(states[0], f, c, size);
      assert u in states[0];
      PageListsOnce(states[0], f, c, size, u);
      if next.Some? {
        assert Stays(states[1..], u);
        ListedOnceOrPassed(states[1..], f, next, size, u);
      }
    }
  }

  /**
   * Users may come, go and change between the pages: one that stays is still listed exactly
   * once.
   */
  lemma StableUsersAreListedOnce(states: seq<seq<User>>, f: SortField, size: nat, u: User)
    requires size > 0 && Stays(states, u) && Finishes(states, f, None, size)
    ensures multiset(FollowChanging(states, f, None, size))[u] == 1
  {
    ListedOnceOrPassed(states, f, None, size, u);
  }

  // ---- The computed sort ----

  datatype Summary = Summary(user: User, uploads: nat, outfits: nat, spend: real)

  datatype Measure = Uploads | Outfits | Spend7d

  function Score(s: Summary, m: Measure): real {
    match m
    case Uploads => s.uploads as real
    case Outfits => s.outfits as real
    case Spend7d => s.spend
  }

  /** Behind every summary that does not score less. */
  function InsertSummary(xs: seq<Summary>, x: Summary, m: Measure): seq<Summary> {
    if xs == [] || Score(xs[|xs| - 1], m) >= Score(x, m) then xs + [x]
    else InsertSummary(xs[..|xs| - 1], x, m) + [xs[|xs| - 1]]
  }

  /** sortSummaries: a stable sort, greatest score first. */
  function SortSummaries(xs: seq<Summary>, m: Measure): seq<Summary> {
    if xs == [] then [] else InsertSummary(SortSummaries(xs[..|xs| - 1], m), xs[|xs| - 1], m)
  }

  /** The summaries with one score, in their order. */
  function WithScore(xs: seq<Summary>, m: Measure, v: real): seq<Summary> {
    if xs == [] then []
    else if Score(xs[|xs| - 1], m) == v then WithScore(xs[..|xs| - 1], m, v) + [xs[|xs| - 1]]
    else WithScore(xs[..|xs| - 1], m, v)
  }

  ghost predicate Descending(xs: seq<Summary>, m: Measure) {
    forall i, j | 0 <= i < j < |xs| :: Score(xs[i], m) >= Score(xs[j], m)
  }

  lemma {:induction false} InsertSummaryMembers(xs: seq<Summary>, x: Summary, m: Measure)
    ensures multiset(InsertSummary(xs, x, m)) == multiset(xs) + multiset{x}
    decreases |xs|
  {
    if xs != [] && Score(xs[|xs| - 1], m) < Score(x, m) {
      var n := |xs| - 1;
      assert xs == xs[..n] + [xs[n]];
      InsertSummaryMembers(xs[..n], x, m);
    }
  }

  lemma AppendDescending(xs: seq<Summary>, last: Summary, m: Measure)
    requires Descending(xs, m) && forall y | y in xs :: Score(y, m) >= Score(last, m)
    ensures Descending(xs + [last], m)
  {
    var all := xs + [last];
    forall i, j | 0 <= i < j < |all|
      ensures Score(all[i], m) >= Score(all[j], m)
    {
      assert all[i] == xs[i] && xs[i] in xs;
    }
  }

  lemma DescendingLast(xs: seq<Summary>, y: Summary, m: Measure)
    requires Descending(xs, m) && xs != [] && y in xs
    ensures Score(y, m) >= Score(xs[|xs| - 1], m)
  {
  }

  lemma {:induction false} InsertSummaryDescending(xs: seq<Summary>, x: Summary, m: Measure)
    requires Descending(xs, m)
    ensures Descending(InsertSummary(xs, x, m), m)
    decreases |xs|
  {
    if xs != [] && Score(xs[|xs| - 1], m) < Score(x, m) {
      var n := |xs| - 1;
      InsertSummaryDescending(xs[..n], x, m);
      InsertSummaryMembers(xs[..n], x, m);
      var ins := InsertSummary(xs[..n], x, m);
      forall y | y in ins
        ensures Score(y, m) >= Score(xs[n], m)
      {
        assert y in multiset(ins);
        if y != x {
          assert y in multiset(xs[..n]);
          assert y in xs[..n];
          DescendingLast(xs, y, m);
        }
      }
      AppendDescending(ins, xs[n], m);
    } else {
      forall y | y in xs
        ensures Score(y, m) >= Score(x, m)
      {
        DescendingLast(xs, y, m);
      }
      AppendDescending(xs, x, m);
    }
  }

  lemma WithScoreAppend(xs: seq<Summary>, x: Summary, m: Measure, v: real)
    ensures WithScore(xs + [x], m, v) == if Score(x, m) == v then WithScore(xs, m, v) + [x] else WithScore(xs, m, v)
  {
    assert (xs + [x])[..|xs|] == xs;
  }

  lemma {:induction false} InsertSummaryStable(xs: seq<Summary>, x: Summary, m: Measure, v: real)
    ensures WithScore(InsertSummary(xs, x, m), m, v) == WithScore(xs + [x], m, v)
    decreases |xs|
  {
    if xs != [] && Score(xs[|xs| - 1], m) < Score(x, m) {
      var n := |xs| - 1;
      var init, last := xs[..n], xs[n];
      assert xs == init + [last];
      InsertSummaryStable(init, x, m, v);
      WithScoreAppend(InsertSummary(init, x, m), last, m, v);
      WithScoreAppend(init, x, m, v);
      WithScoreAppend(init, last, m, v);
      WithScoreAppend(xs, x, m, v);
    }
  }

  /** The sort is a permutation, in descending order, and keeps equal scores in scan order. */
  lemma {:induction false} SortSummariesSpec(xs: seq<Summary>, m: Measure, v: real)
    ensures multiset(SortSummaries(xs, m)) == multiset(xs)
    ensures Descending(SortSummaries(xs, m), m)
    ensures WithScore(SortSummaries(xs, m), m, v) == WithScore(xs, m, v)
    decreases |xs|
  {
    if xs != [] {
      var n := |xs| - 1;
      assert xs == xs[..n] + [xs[n]];
      SortSummariesSpec(xs[..n], m, v);
      InsertSummaryMembers(SortSummaries(xs[..n], m), xs[n], m);
      InsertSummaryDescending(SortSummaries(xs[..n], m), xs[n], m);
      InsertSummaryStable(SortSummaries(xs[..n], m), xs[n], m, v);
      WithScoreAppend(SortSummaries(xs[..n], m), xs[n], m, v);
    }
  }

  lemma SortKeepsLength(xs: seq<Summary>, m: Measure)
    ensures |SortSummaries(xs, m)| == |xs|
  {
    SortSummariesSpec(xs, m, 0.0);
    assert |multiset(SortSummaries(xs, m))| == |multiset(xs)|;
  }

  /** At most this many users are scanned, newest first. */
  const MAX_USERS_SCAN: nat := 500

  function Scan(us: seq<User>): seq<User> {
    Take(Sorted(us, CreatedAt), MAX_USERS_SCAN)
  }

  /** The offset a cursor stands for; anything but a non-negative numeral starts over. */
  function OffsetOf(cursor: string): nat {
    match Atoi(cursor)
    case Some(n) => if n >= 0 then n else 0
    case None => 0
  }

  /** listComputedSort, on the summaries of the scan; the empty string stands for no next page. */
  method ListComputedSort(scanned: seq<Summary>, m: Measure, cursor: string, limit: int)
    returns (page: seq<Summary>, next: string)
    ensures (page, next) ==
            ComputedPage(SortSummaries(scanned, m), OffsetOf(cursor), if 1 <= limit <= 100 then limit else 20)
    ensures next != "" <==> OffsetOf(cursor) + |page| < |scanned|
    ensures Atoi(cursor).None? || Atoi(cursor).value < 0 ==>
              page == Take(SortSummaries(scanned, m), if 1 <= limit <= 100 then limit else 20)
  {
    var size := PageSize(limit);
    var offset := 0;
    if cursor != "" {
      var n := Atoi(cursor);
      if n.Some? && n.value >= 0 {
        offset := n.value;
      }
    }
    var all := SortSummaries(scanned, m);
    SortKeepsLength(scanned, m);
    if offset >= |all| {
      return [], "";
    }
    var end := offset + size;
    var hasMore := false;
    if end >= |all| {
      end := |all|;
    } else {
      hasMore := true;
    }
    page := all[offset..end];
    assert end == |all| ==> page == all[offset..];
    next := "";
    if hasMore {
      next := Itoa(end);
    }
  }

  function ComputedPage(all: seq<Summary>, offset: nat, size: nat): (seq<Summary>, string) {
    if offset >= |all| then ([], "")
    else if offset + size >= |all| then (all[offset..], "")
    else (all[offset..offset + size], Itoa(offset + size))
  }

  /** An offset page is full unless it is the last, starts at its offset, and its cursor prints where it ends. */
  lemma ComputedPageMeans(all: seq<Summary>, offset: nat, size: nat)
    ensures var (page, next) := ComputedPage(all, offset, size);
            && |page| <= size
            && (offset + |page| < |all| ==> |page| == size && next == Itoa(offset + size))
            && (offset + |page| >= |all| ==> next == "")
            && (forall k | 0 <= k < |page| :: page[k] == all[offset + k])
  {
  }

  /** All offset pages from an offset on; the cursor is printed and read back each time. */
  function FollowOffsets(all: seq<Summary>, offset: nat, size: nat): seq<Summary>
    requires size > 0 && Int64(|all|)
    decreases if offset < |all| then |all| - offset else 0
  {
    var (page, next) := ComputedPage(all, offset, size);
    if next == "" then page
    else
      AtoiOfDigits(offset + size);
      page + FollowOffsets(all, OffsetOf(next), size)
  }

  /** The offset pages of a fixed list are the list. */
  lemma {:induction false} OffsetPagesAreTheRest(all: seq<Summary>, offset: nat, size: nat)
    requires size > 0 && Int64(|all|)
    ensures FollowOffsets(all, offset, size) == if offset < |all| then all[offset..] else []
    decreases if offset < |all| then |all| - offset else 0
  {
    if offset + size < |all| {
      AtoiOfDigits(offset + size);
      OffsetPagesAreTheRest(all, offset + size, size);
    }
  }

  // ---- The whole computed list ----

  /** The scanned users with their figures, as populateSummaries yields them: one for each, in order. */
  function Summaries(us: seq<User>, populate: User -> Summary): seq<Summary> {
    seq(|us|, i requires 0 <= i < |us| => populate(us[i]))
  }

  /** The scan is the newest users, at most 500 of them, in order: nobody left out is before one of them. */
  lemma ScanIsTheNewest(us: seq<User>)
    requires UniqueIds(us)
    ensures |Scan(us)| == (if |us| < 500 then |us| else 500) && InOrder(Scan(us), CreatedAt)
    ensures forall x, y | x in Scan(us) && y in us && y !in Scan(us) ::
              x.createdAt > y.createdAt || (x.createdAt == y.createdAt && StringLess(y.id, x.id))
  {
    SortedSpec(us, CreatedAt);
    var all := Sorted(us, CreatedAt);
    assert |multiset(all)| == |multiset(us)|;
    assert forall k | 0 <= k < |Scan(us)| :: all[k] == Scan(us)[k] && all[k] in Scan(us);
    forall x, y | x in Scan(us) && y in us && y !in Scan(us)
      ensures x.createdAt > y.createdAt || (x.createdAt == y.createdAt && StringLess(y.id, x.id))
    {
      assert y in multiset(all);
      var i :| 0 <= i < |Scan(us)| && Scan(us)[i] == x;
      var j :| 0 <= j < |all| && all[j] == y;
      assert all[i] == x && j >= |Scan(us)|;
      assert Before(KeyOf(x, CreatedAt), KeyOf(y, CreatedAt));
    }
  }

  ghost predicate MoreUploadsFirst(xs: seq<Summary>) {
    forall i, j | 0 <= i < j < |xs| :: xs[i].uploads >= xs[j].uploads
  }

  ghost predicate MoreOutfitsFirst(xs: seq<Summary>) {
    forall i, j | 0 <= i < j < |xs| :: xs[i].outfits >= xs[j].outfits
  }

  ghost predicate MoreSpendFirst(xs: seq<Summary>) {
    forall i, j | 0 <= i < j < |xs| :: xs[i].spend >= xs[j].spend
  }

  lemma DescendingMeans(xs: seq<Summary>, m: Measure)
    requires Descending(xs, m)
    ensures m.Uploads? ==> MoreUploadsFirst(xs)
    ensures m.Outfits? ==> MoreOutfitsFirst(xs)
    ensures m.Spend7d? ==> MoreSpendFirst(xs)
  {
    assert forall i, j | 0 <= i < j < |xs| :: Score(xs[i], m) >= Score(xs[j], m);
  }

  /**
   * Following the offsets from the start lists the scanned users' summaries, each once, in
   * descending order, and those with equal scores in the order of the scan.
   */
  lemma OffsetPagesAreTheSortedScan(us: seq<User>, populate: User -> Summary, m: Measure, size: nat, v: real)
    requires size > 0
    ensures |SortSummaries(Summaries(Scan(us), populate), m)| == |Scan(us)| <= MAX_USERS_SCAN
    ensures var summaries := Summaries(Scan(us), populate);
            var listed := FollowOffsets(SortSummaries(summaries, m), 0, size);
            && multiset(listed) == multiset(summaries)
            && (m.Uploads? ==> MoreUploadsFirst(listed))
            && (m.Outfits? ==> MoreOutfitsFirst(listed))
            && (m.Spend7d? ==> MoreSpendFirst(listed))
            && WithScore(listed, m, v) == WithScore(summaries, m, v)
  {
    var summaries := Summaries(Scan(us), populate);
    SortSummariesSpec(summaries, m, v);
    var all := SortSummaries(summaries, m);
    SortKeepsLength(summaries, m);
    OffsetPagesAreTheRest(all, 0, size);
    DescendingMeans(all, m);
  }
}
