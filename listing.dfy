/**
 * `GET /pets`: filter by status, sort by id, keep ids above the cursor, cut to `limit`,
 * and hand back the last id as `next` when the page is full; and what a client gets
 * by feeding `next` back as the cursor until it is absent.
 *
 * The store is the map from id to pet together with the id counter. Every stored pet
 * sits under its own id, and ids are issued from 1 up to one below the counter, so the
 * stored pets sorted by id are the stored ids met when counting from 1 to the counter.
 */
module Listing {
  import opened Wrappers
  import opened PetModel
  import Examples

  /** `limit: int = Query(default=10, ge=1, le=100)` */
  type Limit = n: int | 1 <= n <= 100 witness 10

  /** Each pet is stored under its own id, and that id was issued: 1 <= id < counter. */
  predicate Issued(pets: map<int, Pet>, counter: int) {
    forall k :: k in pets ==> pets[k].id == k && 1 <= k < counter
  }

  predicate StrictlyAscending(s: seq<int>) {
    forall i, j :: 0 <= i < j < |s| ==> s[i] < s[j]
  }

  lemma PrependAscending(m: int, rest: seq<int>)
    requires StrictlyAscending(rest)
    requires forall i :: 0 <= i < |rest| ==> m < rest[i]
    ensures StrictlyAscending([m] + rest)
  {
    var r := [m] + rest;
    forall i, j | 0 <= i < j < |r| ensures r[i] < r[j] {
      if i > 0 {
        assert r[i] == rest[i - 1] && r[j] == rest[j - 1];
      } else {
        assert r[j] == rest[j - 1];
      }
    }
  }

  lemma TailAscending(s: seq<int>)
    requires StrictlyAscending(s) && s != []
    ensures StrictlyAscending(s[1..])
  {
    forall i, j | 0 <= i < j < |s[1..]| ensures s[1..][i] < s[1..][j] {
      assert s[1..][i] == s[i + 1] && s[1..][j] == s[j + 1];
    }
  }

  /** `status is None or p.status == status` */
  predicate MatchesStatus(pet: Pet, status: Option<Status>) {
    status.None? || pet.body.status == status.value
  }

  /** The ids k with lo <= k < hi of the stored pets that pass the status filter, counting up. */
  function MatchingBetween(pets: map<int, Pet>, status: Option<Status>, lo: int, hi: int): seq<int>
    decreases hi - lo
  {
    if lo >= hi then []
    else
      var rest := MatchingBetween(pets, status, lo + 1, hi);
      if lo in pets && MatchesStatus(pets[lo], status) then [lo] + rest else rest
  }

  /** The scan lists the matching stored ids in the range, each once, in ascending order. */
  lemma {:induction false} MatchingBetweenMeaning(pets: map<int, Pet>, status: Option<Status>, lo: int, hi: int)
    ensures var r := MatchingBetween(pets, status, lo, hi);
      && StrictlyAscending(r)
      && forall k :: k in r <==> lo <= k < hi && k in pets && MatchesStatus(pets[k], status)
    decreases hi - lo
  {
    if lo < hi {
      var rest := MatchingBetween(pets, status, lo + 1, hi);
      MatchingBetweenMeaning(pets, status, lo + 1, hi);
      if lo in pets && MatchesStatus(pets[lo], status) {
        forall i | 0 <= i < |rest| ensures lo < rest[i] {
          assert rest[i] in rest;
        }
        PrependAscending(lo, rest);
      }
    }
  }

  /** `[x for x in s if x > c]` */
  function Above(s: seq<int>, c: int): seq<int> {
    if s == [] then []
    else
      var rest := Above(s[1..], c);
      if s[0] > c then [s[0]] + rest else rest
  }

  /** Filtering keeps exactly the elements above c, and keeps an ascending sequence ascending. */
  lemma {:induction false} AboveMeaning(s: seq<int>, c: int)
    ensures forall x :: x in Above(s, c) <==> x in s && x > c
    ensures StrictlyAscending(s) ==> StrictlyAscending(Above(s, c))
  {
    if s != [] {
      var rest := Above(s[1..], c);
      AboveMeaning(s[1..], c);
      assert forall x :: x in s <==> x == s[0] || x in s[1..] by {
        assert s == [s[0]] + s[1..];
      }
      if StrictlyAscending(s) {
        TailAscending(s);
        forall i | 0 <= i < |rest| ensures s[0] < rest[i] {
          assert rest[i] in rest;
          var j :| 0 <= j < |s[1..]| && s[1..][j] == rest[i];
          assert s[1..][j] == s[j + 1];
        }
        PrependAscending(s[0], rest);
      }
    }
  }

  /** The cursor only applies when it is present and non-zero (`if cursor:`). */
  predicate HasCursor(cursor: Option<int>) {
    cursor.Some? && cursor.value != 0
  }

  /** The ids the handler pages through: the matching ids in ascending order, above the cursor if any. */
  function Candidates(pets: map<int, Pet>, counter: int, status: Option<Status>, cursor: Option<int>): seq<int> {
    var items := MatchingBetween(pets, status, 1, counter);
    if HasCursor(cursor) then Above(items, cursor.value) else items
  }

  /**
   * The candidates are the stored pets that pass the status filter and, when a cursor
   * applies, lie above it, listed once each in ascending id order.
   */
  lemma CandidatesMeaning(pets: map<int, Pet>, counter: int, status: Option<Status>, cursor: Option<int>)
    requires Issued(pets, counter)
    ensures var items := Candidates(pets, counter, status, cursor);
      && StrictlyAscending(items)
      && forall k :: k in items <==>
           k in pets && MatchesStatus(pets[k], status) && (HasCursor(cursor) ==> k > cursor.value)
  {
    MatchingBetweenMeaning(pets, status, 1, counter);
    if HasCursor(cursor) {
      AboveMeaning(MatchingBetween(pets, status, 1, counter), cursor.value);
    }
  }

  /** `items[:limit]` */
  function Take(s: seq<int>, limit: nat): (r: seq<int>)
    ensures |r| == if |s| <= limit then |s| else limit
    ensures r == s[..|r|]
  {
    if |s| <= limit then s else s[..limit]
  }

  /** `[PETS[i] for i in ids]` */
  function Lookup(pets: map<int, Pet>, ids: seq<int>): (r: seq<Pet>)
    requires forall i :: 0 <= i < |ids| ==> ids[i] in pets
    ensures |r| == |ids|
    ensures forall i :: 0 <= i < |ids| ==> r[i] == pets[ids[i]]
  {
    if ids == [] then [] else [pets[ids[0]]] + Lookup(pets, ids[1..])
  }

  /** A reply of `GET /pets`: `{"data": [...], "next": ...}`. */
  datatype Page = Page(data: seq<Pet>, next: Option<int>)

  function Ids(pets: seq<Pet>): (r: seq<int>)
    ensures |r| == |pets| && forall i :: 0 <= i < |pets| ==> r[i] == pets[i].id
  {
    seq(|pets|, i requires 0 <= i < |pets| => pets[i].id)
  }

  lemma TakeAscending(s: seq<int>, limit: nat)
    requires StrictlyAscending(s)
    ensures StrictlyAscending(Take(s, limit))
  {
    var t := Take(s, limit);
    forall i, j | 0 <= i < j < |t| ensures t[i] < t[j] {
      assert t[i] == s[i] && t[j] == s[j];
    }
  }

  /** The ids on a page are stored, each under its own id. */
  lemma PageIdsStored(pets: map<int, Pet>, counter: int, status: Option<Status>, limit: Limit, cursor: Option<int>)
    requires Issued(pets, counter)
    ensures var ids := Take(Candidates(pets, counter, status, cursor), limit);
      forall i :: 0 <= i < |ids| ==> ids[i] in pets && pets[ids[i]].id == ids[i]
  {
    var items := Candidates(pets, counter, status, cursor);
    CandidatesMeaning(pets, counter, status, cursor);
    var ids := Take(items, limit);
    forall i | 0 <= i < |ids| ensures ids[i] in pets {
      assert ids[i] == items[i] && items[i] in items;
    }
  }

  /** `list_pets(status, limit, cursor)` over the store `pets` whose counter is `counter`. */
  function ListPets(pets: map<int, Pet>, counter: int, status: Option<Status>, limit: Limit, cursor: Option<int>): (page: Page)
    requires Issued(pets, counter)
    ensures Ids(page.data) == Take(Candidates(pets, counter, status, cursor), limit)
    ensures page.next == if |page.data| == limit then Some(page.data[limit - 1].id) else None
  {
    var ids := Take(Candidates(pets, counter, status, cursor), limit);
    PageIdsStored(pets, counter, status, limit, cursor);
    var data := Lookup(pets, ids);
    assert Ids(data) == ids;
    Page(data, if |data| == limit then Some(data[|data| - 1].id) else None)
  }

  /**
   * What a page holds: at most `limit` stored pets, in strictly ascending id order, each
   * passing the status filter and lying above the cursor; `next` is the last id exactly
   * when the page is full.
   */
  lemma PageContents(pets: map<int, Pet>, counter: int, status: Option<Status>, limit: Limit, cursor: Option<int>)
    requires Issued(pets, counter)
    ensures var page := ListPets(pets, counter, status, limit, cursor);
      && |page.data| <= limit
      && StrictlyAscending(Ids(page.data))
      && (forall i :: 0 <= i < |page.data| ==>
            && page.data[i].id in pets && pets[page.data[i].id] == page.data[i]
            && MatchesStatus(page.data[i], status)
            && (HasCursor(cursor) ==> page.data[i].id > cursor.value))
      && (page.next.Some? <==> |page.data| == limit)
      && (page.next.Some? ==> page.next.value == page.data[|page.data| - 1].id)
  {
    var items := Candidates(pets, counter, status, cursor);
    CandidatesMeaning(pets, counter, status, cursor);
    PageIdsStored(pets, counter, status, limit, cursor);
    var page := ListPets(pets, counter, status, limit, cursor);
    PageOfItems(pets, status, cursor, items, limit, page.data);
  }

  /** The pets looked up for a prefix of ascending, filtered, stored ids. */
  lemma PageOfItems(pets: map<int, Pet>, status: Option<Status>, cursor: Option<int>, items: seq<int>, limit: Limit, data: seq<Pet>)
    requires StrictlyAscending(items)
    requires forall k :: k in items ==> k in pets && MatchesStatus(pets[k], status) && (HasCursor(cursor) ==> k > cursor.value)
    requires forall i :: 0 <= i < |Take(items, limit)| ==> Take(items, limit)[i] in pets
    requires Ids(data) == Take(items, limit)
    requires data == Lookup(pets, Take(items, limit))
    ensures |data| <= limit
    ensures StrictlyAscending(Ids(data))
    ensures forall i :: 0 <= i < |data| ==>
      && data[i].id in pets && pets[data[i].id] == data[i]
      && MatchesStatus(data[i], status)
      && (HasCursor(cursor) ==> data[i].id > cursor.value)
  {
    var ids := Take(items, limit);
    TakeAscending(items, limit);
    forall i | 0 <= i < |data|
      ensures data[i].id in pets && pets[data[i].id] == data[i]
      ensures MatchesStatus(data[i], status)
      ensures HasCursor(cursor) ==> data[i].id > cursor.value
    {
      assert data[i] == pets[ids[i]] && data[i].id == ids[i];
      assert ids[i] == items[i] && items[i] in items;
    }
  }

  /** The head of an ascending sequence is its least element. */
  lemma HeadLeast(s: seq<int>, x: int)
    requires StrictlyAscending(s) && x in s
    ensures s[0] <= x
  {
    var i :| 0 <= i < |s| && s[i] == x;
    assert i == 0 || s[0] < s[i];
  }

  /** The tail of an ascending sequence holds all its elements but the head. */
  lemma TailMembers(s: seq<int>)
    requires StrictlyAscending(s) && s != []
    ensures forall x :: x in s[1..] <==> x in s && x != s[0]
  {
    assert s == [s[0]] + s[1..];
    forall x | x in s[1..] ensures x != s[0] {
      var i :| 0 <= i < |s[1..]| && s[1..][i] == x;
      assert s[1..][i] == s[i + 1];
    }
  }

  /** Two strictly ascending sequences with the same elements are the same sequence. */
  lemma {:induction false} AscendingUnique(a: seq<int>, b: seq<int>)
    requires StrictlyAscending(a) && StrictlyAscending(b)
    requires forall x :: x in a <==> x in b
    ensures a == b
    decreases |a|
  {
    assert a == [] || a[0] in a;
    assert b == [] || b[0] in b;
    if a != [] {
      HeadLeast(a, b[0]);
      HeadLeast(b, a[0]);
      TailAscending(a);
      TailAscending(b);
      TailMembers(a);
      TailMembers(b);
      AscendingUnique(a[1..], b[1..]);
      assert a == [a[0]] + a[1..] && b == [b[0]] + b[1..];
    }
  }

  /**
   * The counter only bounds the scan: any counter above every stored id gives the same
   * page, which is the page of the stored pets sorted by id.
   */
  lemma ListPetsIgnoresCounter(pets: map<int, Pet>, c1: int, c2: int, status: Option<Status>, limit: Limit, cursor: Option<int>)
    requires Issued(pets, c1) && Issued(pets, c2)
    ensures ListPets(pets, c1, status, limit, cursor) == ListPets(pets, c2, status, limit, cursor)
  {
    CandidatesMeaning(pets, c1, status, cursor);
    CandidatesMeaning(pets, c2, status, cursor);
    AscendingUnique(Candidates(pets, c1, status, cursor), Candidates(pets, c2, status, cursor));
  }

  lemma {:induction false} AboveAll(s: seq<int>, c: int)
    requires forall i :: 0 <= i < |s| ==> s[i] > c
    ensures Above(s, c) == s
  {
    if s != [] {
      AboveAll(s[1..], c);
      assert s == [s[0]] + s[1..];
    }
  }

  /** Keeping the ids above an element of an ascending sequence keeps exactly what follows it. */
  lemma {:induction false} AboveElement(s: seq<int>, i: nat)
    requires StrictlyAscending(s) && i < |s|
    ensures Above(s, s[i]) == s[i + 1..]
  {
    TailAscending(s);
    if i == 0 {
      AboveAll(s[1..], s[0]);
    } else {
      assert s[1..][i - 1] == s[i];
      AboveElement(s[1..], i - 1);
      assert s[1..][i..] == s[i + 1..];
    }
  }

  /** Filtering above c and then above n >= c is filtering above n. */
  lemma {:induction false} AboveTwice(s: seq<int>, c: int, n: int)
    requires c <= n
    ensures Above(Above(s, c), n) == Above(s, n)
  {
    if s != [] {
      AboveTwice(s[1..], c, n);
      if s[0] > c {
        assert Above(s, c) == [s[0]] + Above(s[1..], c);
        assert ([s[0]] + Above(s[1..], c))[1..] == Above(s[1..], c);
      }
    }
  }

  /**
   * When a page is full, the cursor it hands back selects exactly the candidates that
   * did not fit on it.
   */
  lemma NextCandidates(pets: map<int, Pet>, counter: int, status: Option<Status>, limit: Limit, cursor: Option<int>)
    requires Issued(pets, counter)
    requires ListPets(pets, counter, status, limit, cursor).next.Some?
    ensures |Candidates(pets, counter, status, cursor)| >= limit
    ensures Candidates(pets, counter, status, ListPets(pets, counter, status, limit, cursor).next) ==
            Candidates(pets, counter, status, cursor)[limit..]
  {
    var all := MatchingBetween(pets, status, 1, counter);
    var items := Candidates(pets, counter, status, cursor);
    CandidatesMeaning(pets, counter, status, cursor);
    var page := ListPets(pets, counter, status, limit, cursor);
    var n := page.next.value;
    assert Ids(page.data)[limit - 1] == items[limit - 1];
    assert n == items[limit - 1] && items[limit - 1] in items;
    assert HasCursor(page.next);
    if HasCursor(cursor) {
      AboveTwice(all, cursor.value, n);
    }
    AboveElement(items, limit - 1);
  }

  /** The ids of a sequence of pages, page after page. */
  function Flatten(pages: seq<Page>): seq<int> {
    if pages == [] then [] else Ids(pages[0].data) + Flatten(pages[1..])
  }

  /**
   * The pages a client collects by starting at `cursor` and passing each reply's `next`
   * back as the cursor until a reply has no `next`, the store staying the same.
   */
  function Walk(pets: map<int, Pet>, counter: int, status: Option<Status>, limit: Limit, cursor: Option<int>): (pages: seq<Page>)
    requires Issued(pets, counter)
    ensures |pages| >= 1 && pages[0] == ListPets(pets, counter, status, limit, cursor)
    decreases |Candidates(pets, counter, status, cursor)|
  {
    var page := ListPets(pets, counter, status, limit, cursor);
    if page.next.None? then [page]
    else
      NextCandidates(pets, counter, status, limit, cursor);
      [page] + Walk(pets, counter, status, limit, page.next)
  }

  /** A full page followed by pages listing the rest lists the whole sequence. */
  lemma FlattenFullPage(items: seq<int>, limit: Limit, page: Page, rest: seq<Page>)
    requires |items| >= limit
    requires Ids(page.data) == Take(items, limit)
    requires Flatten(rest) == items[limit..]
    ensures Flatten([page] + rest) == items
  {
    assert ([page] + rest)[1..] == rest;
    assert items == items[..limit] + items[limit..];
  }

  /** The last page lists the whole (short) sequence. */
  lemma FlattenLastPage(items: seq<int>, limit: Limit, page: Page)
    requires Ids(page.data) == Take(items, limit)
    requires |page.data| < limit
    ensures Flatten([page]) == items
  {
    assert Flatten([page]) == Ids(page.data) + Flatten([]);
  }

  /**
   * Paging from `cursor` to the end lists every candidate exactly once, in ascending
   * order.
   */
  lemma {:induction false} WalkListsCandidates(pets: map<int, Pet>, counter: int, status: Option<Status>, limit: Limit, cursor: Option<int>)
    requires Issued(pets, counter)
    ensures Flatten(Walk(pets, counter, status, limit, cursor)) == Candidates(pets, counter, status, cursor)
    decreases |Candidates(pets, counter, status, cursor)|
  {
    var items := Candidates(pets, counter, status, cursor);
    var page := ListPets(pets, counter, status, limit, cursor);
    if page.next.None? {
      FlattenLastPage(items, limit, page);
    } else {
      NextCandidates(pets, counter, status, limit, cursor);
      WalkListsCandidates(pets, counter, status, limit, page.next);
      var rest := Walk(pets, counter, status, limit, page.next);
      FlattenFullPage(items, limit, page, rest);
    }
  }

  /** Every page but the last hands back a `next`, and the last one does not. */
  predicate StopsAtLast(pages: seq<Page>) {
    && |pages| >= 1
    && pages[|pages| - 1].next.None?
    && forall i :: 0 <= i < |pages| - 1 ==> pages[i].next.Some?
  }

  lemma StopsAtLastCons(page: Page, rest: seq<Page>)
    requires page.next.Some? && StopsAtLast(rest)
    ensures StopsAtLast([page] + rest)
  {
    var pages := [page] + rest;
    assert forall i :: 1 <= i < |pages| ==> pages[i] == rest[i - 1];
  }

  /** A walk stops at the first page without a `next`. */
  lemma {:induction false} WalkStopsAtLastPage(pets: map<int, Pet>, counter: int, status: Option<Status>, limit: Limit, cursor: Option<int>)
    requires Issued(pets, counter)
    ensures StopsAtLast(Walk(pets, counter, status, limit, cursor))
    decreases |Candidates(pets, counter, status, cursor)|
  {
    var page := ListPets(pets, counter, status, limit, cursor);
    if page.next.Some? {
      NextCandidates(pets, counter, status, limit, cursor);
      WalkStopsAtLastPage(pets, counter, status, limit, page.next);
      StopsAtLastCons(page, Walk(pets, counter, status, limit, page.next));
    }
  }

  /**
   * Starting without a cursor, the pages together list each stored pet that passes the
   * status filter exactly once, in ascending id order, and nothing else.
   */
  lemma WalkListsEachMatchOnce(pets: map<int, Pet>, counter: int, status: Option<Status>, limit: Limit)
    requires Issued(pets, counter)
    ensures var ids := Flatten(Walk(pets, counter, status, limit, None));
      && StrictlyAscending(ids)
      && (forall k :: k in ids <==> k in pets && MatchesStatus(pets[k], status))
  {
    WalkListsCandidates(pets, counter, status, limit, None);
    CandidatesMeaning(pets, counter, status, None);
  }

  /** The `id` key of a pet in a reply. */
  function PetId(pet: Pet): int {
    pet.id
  }

  /** A full page and the page listing what follows it share no id. */
  lemma SuccessivePagesDisjoint(items: seq<int>, limit: Limit, first: seq<Pet>, second: seq<Pet>)
    requires StrictlyAscending(items) && |items| >= limit
    requires Ids(first) == Take(items, limit)
    requires Ids(second) == Take(items[limit..], limit)
    ensures Examples.NoOverlap(first, second, PetId)
  {
    forall i, j | 0 <= i < |first| && 0 <= j < |second|
      ensures PetId(first[i]) != PetId(second[j])
    {
      assert Ids(first)[i] == items[i];
      assert Ids(second)[j] == items[limit..][j] == items[limit + j];
    }
    Examples.NoOverlapIff(first, second, PetId);
  }

  /** A page and the page its `next` cursor leads to pass `assert_no_overlap` on `id`. */
  lemma ConsecutivePagesDoNotOverlap(pets: map<int, Pet>, counter: int, status: Option<Status>, limit: Limit, cursor: Option<int>)
    requires Issued(pets, counter)
    requires ListPets(pets, counter, status, limit, cursor).next.Some?
    ensures var first := ListPets(pets, counter, status, limit, cursor);
      Examples.NoOverlap(first.data, ListPets(pets, counter, status, limit, first.next).data, PetId)
  {
    var first := ListPets(pets, counter, status, limit, cursor);
    NextCandidates(pets, counter, status, limit, cursor);
    CandidatesMeaning(pets, counter, status, cursor);
    SuccessivePagesDisjoint(Candidates(pets, counter, status, cursor), limit,
      first.data, ListPets(pets, counter, status, limit, first.next).data);
  }
}
