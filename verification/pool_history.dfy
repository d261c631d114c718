/** `lib/pool-history.ts`: the list of pools this browser has opened, kept
    in one storage slot as a JSON array. Reading validates and sorts it;
    adding upserts by slug and role, sorts newest first and keeps twenty;
    removing filters by slug and role. The slot holds the parsed value (or
    nothing); parsing and stringifying text are not part of this model. */
module PoolHistory {
  import opened Wrappers
  import opened Json
  import Sorting

  const MaxEntries: nat := 20

  datatype Role = Admin | Player

  /** A `PoolHistoryEntry`; `verifiedAt` keeps whatever value the stored
      object held under that key. */
  datatype Entry = Entry(slug: string, title: string, role: Role, joinedAt: int, verifiedAt: Option<Json>)

  function RoleName(r: Role): string {
    match r
    case Admin => "admin"
    case Player => "player"
  }

  function JoinedAt(e: Entry): int { e.joinedAt }

  /** The shape test of `getPoolHistory`'s filter: an object with a string
      slug and title, role "admin" or "player" and a numeric joinedAt. */
  function Decode(j: Json): (e: Option<Entry>)
    ensures e.Some? <==> (
      && j.JObject? && HasString(j.fields, "slug") && HasString(j.fields, "title")
      && "role" in j.fields && (j.fields["role"] == JString("admin") || j.fields["role"] == JString("player"))
      && HasNumber(j.fields, "joinedAt"))
    ensures e.Some? ==> (
      && e.value.slug == j.fields["slug"].s && e.value.title == j.fields["title"].s
      && e.value.joinedAt == j.fields["joinedAt"].n
      && JString(RoleName(e.value.role)) == j.fields["role"])
  {
    match j
    case JObject(f) =>
      if HasString(f, "slug") && HasString(f, "title") && "role" in f
         && (f["role"] == JString("admin") || f["role"] == JString("player")) && HasNumber(f, "joinedAt")
      then
        var role := if f["role"] == JString("admin") then Admin else Player;
        var verified := if "verifiedAt" in f then Some(f["verifiedAt"]) else None;
        Some(Entry(f["slug"].s, f["title"].s, role, f["joinedAt"].n, verified))
      else None
    case _ => None
  }

  /** `JSON.stringify` of one entry; an absent `verifiedAt` writes no key. */
  function Encode(e: Entry): Json {
    var base := map["slug" := JString(e.slug), "title" := JString(e.title), "role" := JString(RoleName(e.role)),
                    "joinedAt" := JNumber(e.joinedAt)];
    JObject(if e.verifiedAt.Some? then base["verifiedAt" := e.verifiedAt.value] else base)
  }

  /** Every entry reads back as itself. */
  lemma DecodeEncode(e: Entry)
    ensures Decode(Encode(e)) == Some(e)
  {
    var f := Encode(e).fields;
    assert f["slug"] == JString(e.slug) && f["title"] == JString(e.title);
    assert f["role"] == JString(RoleName(e.role)) && f["joinedAt"] == JNumber(e.joinedAt);
    assert "verifiedAt" in f <==> e.verifiedAt.Some?;
  }

  function EncodeAll(es: seq<Entry>): (j: Json)
    ensures j.JArray? && |j.elems| == |es|
  {
    JArray(seq(|es|, i requires 0 <= i < |es| => Encode(es[i])))
  }

  /** The elements that pass the shape test, in input order. */
  function ValidEntries(xs: seq<Json>): (es: seq<Entry>)
    ensures |es| <= |xs|
    ensures forall e :: e in es <==> exists i :: 0 <= i < |xs| && Decode(xs[i]) == Some(e)
  {
    if xs == [] then []
    else
      var rest := ValidEntries(xs[1..]);
      assert forall i :: 1 <= i < |xs| ==> xs[i] == xs[1..][i - 1];
      match Decode(xs[0])
      case Some(e) => [e] + rest
      case None => rest
  }

  /** Decoding encoded entries gives them back, in order. */
  lemma {:induction false} ValidEntriesEncoded(es: seq<Entry>)
    ensures ValidEntries(EncodeAll(es).elems) == es
  {
    if es != [] {
      var xs := EncodeAll(es).elems;
      DecodeEncode(es[0]);
      assert xs[1..] == EncodeAll(es[1..]).elems;
      ValidEntriesEncoded(es[1..]);
      assert es == [es[0]] + es[1..];
    }
  }

  /** `getPoolHistory` on the slot's content: nothing stored or a
      non-array gives [], otherwise the well-shaped elements, newest
      first, ties in stored order. */
  function GetPoolHistory(item: Option<Json>): (h: seq<Entry>)
    ensures Sorting.SortedDesc(h, JoinedAt)
    ensures item.None? || !item.value.JArray? ==> h == []
    ensures item.Some? && item.value.JArray? ==>
      multiset(h) == multiset(ValidEntries(item.value.elems))
  {
    match item
    case Some(JArray(xs)) => Sorting.SortDesc(ValidEntries(xs), JoinedAt)
    case _ => []
  }

  /** A sorted list written to the slot reads back unchanged. */
  lemma ReadBack(es: seq<Entry>)
    requires Sorting.SortedDesc(es, JoinedAt)
    ensures GetPoolHistory(Some(EncodeAll(es))) == es
  {
    ValidEntriesEncoded(es);
    Sorting.SortSortedIsIdentity(es, JoinedAt);
  }

  /** The entries of `h` that satisfy `p`, in order. */
  function Keep(h: seq<Entry>, p: Entry -> bool): (r: seq<Entry>)
    ensures |r| <= |h|
    ensures forall e :: e in r <==> e in h && p(e)
  {
    if h == [] then []
    else
      assert forall e :: e in h <==> e == h[0] || e in h[1..];
      if p(h[0]) then [h[0]] + Keep(h[1..], p) else Keep(h[1..], p)
  }

  /** Filtering keeps the relative order: it distributes over
      concatenation. */
  lemma {:induction false} KeepAppend(a: seq<Entry>, b: seq<Entry>, p: Entry -> bool)
    ensures Keep(a + b, p) == Keep(a, p) + Keep(b, p)
  {
    if a == [] {
      assert a + b == b;
    } else {
      assert (a + b)[1..] == a[1..] + b;
      KeepAppend(a[1..], b, p);
    }
  }

  /** A list whose every entry passes is kept whole. */
  lemma {:induction false} KeepAll(a: seq<Entry>, p: Entry -> bool)
    requires forall i :: 0 <= i < |a| ==> p(a[i])
    ensures Keep(a, p) == a
  {
    if a != [] {
      KeepAll(a[1..], p);
      assert a == [a[0]] + a[1..];
    }
  }

  /** Filtering a newest-first list leaves it newest first. */
  lemma {:induction false} KeepSorted(a: seq<Entry>, p: Entry -> bool)
    requires Sorting.SortedDesc(a, JoinedAt)
    ensures Sorting.SortedDesc(Keep(a, p), JoinedAt)
  {
    if a != [] {
      assert Sorting.SortedDesc(a[1..], JoinedAt);
      KeepSorted(a[1..], p);
      var r := Keep(a[1..], p);
      forall e | e in r ensures a[0].joinedAt >= e.joinedAt {
        var k :| 0 <= k < |a[1..]| && a[1..][k] == e;
        assert a[k + 1] == e;
      }
    }
  }

  /** The trust rule of `getVerifiedPoolHistory`: every player entry, and
      an admin entry only with a truthy `verifiedAt`. */
  predicate IsVerified(e: Entry) {
    e.role == Player || (e.verifiedAt.Some? && Truthy(e.verifiedAt.value))
  }

  function GetVerifiedPoolHistory(item: Option<Json>): seq<Entry> {
    Keep(GetPoolHistory(item), IsVerified)
  }

  /** The verified history holds exactly the player entries and the
      verified admin entries of the full history, newest first; an admin
      entry without `verifiedAt`, or with a falsy one, is dropped. */
  lemma VerifiedHistory(item: Option<Json>, e: Entry)
    ensures var v := GetVerifiedPoolHistory(item);
      && Sorting.SortedDesc(v, JoinedAt)
      && (e.role == Player ==> (e in v <==> e in GetPoolHistory(item)))
      && (e.role == Admin ==> (e in v <==> e in GetPoolHistory(item) && e.verifiedAt.Some? && Truthy(e.verifiedAt.value)))
  {
    KeepSorted(GetPoolHistory(item), IsVerified);
  }

  predicate SameKey(e: Entry, slug: string, role: Role) {
    e.slug == slug && e.role == role
  }

  /** `findIndex` for the slug and role: the first matching position, or
      `|h|` when none matches. */
  function FirstKeyIndex(h: seq<Entry>, slug: string, role: Role): (i: nat)
    ensures i <= |h|
    ensures forall j :: 0 <= j < i ==> !SameKey(h[j], slug, role)
    ensures i < |h| ==> SameKey(h[i], slug, role)
  {
    if h == [] || SameKey(h[0], slug, role) then 0
    else 1 + FirstKeyIndex(h[1..], slug, role)
  }

  /** `history.findIndex(...)` as a scan: the index it stops at is the
      first entry with that slug and role, or `|h|` when there is none. */
  method FindIndex(h: seq<Entry>, slug: string, role: Role) returns (i: nat)
    ensures i == FirstKeyIndex(h, slug, role)
    ensures i < |h| <==> exists x :: x in h && SameKey(x, slug, role)
  {
    i := 0;
    while i < |h| && !(h[i].slug == slug && h[i].role == role)
      invariant i <= |h|
      invariant forall j :: 0 <= j < i ==> !SameKey(h[j], slug, role)
    {
      i := i + 1;
    }
    FirstKeyIndexUnique(h, slug, role, i);
    if i == |h| {
      forall x | x in h ensures !SameKey(x, slug, role) {
        var k :| 0 <= k < |h| && h[k] == x;
      }
    }
  }

  /** Only the first matching position has no match before it. */
  lemma FirstKeyIndexUnique(h: seq<Entry>, slug: string, role: Role, i: nat)
    requires i <= |h|
    requires forall j :: 0 <= j < i ==> !SameKey(h[j], slug, role)
    requires i < |h| ==> SameKey(h[i], slug, role)
    ensures i == FirstKeyIndex(h, slug, role)
  {
  }

  /** The list after the replace-or-unshift step. */
  function Upsert(h: seq<Entry>, entry: Entry): seq<Entry> {
    var i := FirstKeyIndex(h, entry.slug, entry.role);
    if i < |h| then h[i := entry] else [entry] + h
  }

  /** The list `addPoolToHistory` stores: the upserted list sorted newest
      first and cut to twenty. */
  function Added(h: seq<Entry>, entry: Entry): seq<Entry> {
    Capped(Upsert(h, entry))
  }

  /** `.sort(newest first).slice(0, MAX_ENTRIES)`. */
  function Capped(u: seq<Entry>): seq<Entry> {
    var sorted := Sorting.SortDesc(u, JoinedAt);
    sorted[..if |sorted| < MaxEntries then |sorted| else MaxEntries]
  }

  /** The capped list has at most twenty entries, newest first, all from
      the list; a list that fits is kept whole, and an entry the cap drops
      is no newer than any kept one. */
  lemma CappedFacts(u: seq<Entry>)
    ensures var r := Capped(u);
      && |r| <= MaxEntries
      && Sorting.SortedDesc(r, JoinedAt)
      && multiset(r) <= multiset(u)
      && (|u| <= MaxEntries ==> multiset(r) == multiset(u))
      && (forall x :: x in u && x !in r ==> forall i :: 0 <= i < |r| ==> r[i].joinedAt >= x.joinedAt)
  {
    var sorted := Sorting.SortDesc(u, JoinedAt);
    var n := if |sorted| < MaxEntries then |sorted| else MaxEntries;
    Sorting.PrefixOfSorted(sorted, JoinedAt, n);
    Sorting.SameMembers(sorted, u);
    if n == |sorted| { assert sorted[..n] == sorted; }
  }

  /** No two entries share slug and role, and no entry appears twice. */
  ghost predicate UniqueKeys(h: seq<Entry>) {
    && (forall x :: multiset(h)[x] <= 1)
    && (forall x, y :: x in h && y in h && x.slug == y.slug && x.role == y.role ==> x == y)
  }

  /** The upsert puts the new entry in, replaces the first entry with the
      same slug and role when there is one (so the list does not grow)
      and prepends it otherwise; every entry with another slug or role
      stays, an entry with the same slug and a different role included. */
  lemma UpsertContents(h: seq<Entry>, entry: Entry)
    ensures var u := Upsert(h, entry);
      && entry in u
      && (forall x :: x in u ==> x == entry || x in h)
      && (forall x :: x in h && !SameKey(x, entry.slug, entry.role) ==> x in u)
      && (|u| == |h| <==> exists x :: x in h && SameKey(x, entry.slug, entry.role))
      && (|u| == |h| + 1 <==> forall x :: x in h ==> !SameKey(x, entry.slug, entry.role))
  {
    var i := FirstKeyIndex(h, entry.slug, entry.role);
    if i < |h| {
      var u := h[i := entry];
      assert u[i] == entry;
      forall x | x in u ensures x == entry || x in h {
        var k :| 0 <= k < |u| && u[k] == x;
        if k != i { assert h[k] == x; }
      }
      forall x | x in h && !SameKey(x, entry.slug, entry.role) ensures x in u {
        var k :| 0 <= k < |h| && h[k] == x;
        assert u[k] == x;
      }
    } else {
      forall x | x in h ensures !SameKey(x, entry.slug, entry.role) {
        var k :| 0 <= k < |h| && h[k] == x;
      }
    }
  }

  /** Upserting keeps slug-and-role keys unique. */
  lemma UpsertKeepsUnique(h: seq<Entry>, entry: Entry)
    requires UniqueKeys(h)
    ensures UniqueKeys(Upsert(h, entry))
  {
    var i := FirstKeyIndex(h, entry.slug, entry.role);
    var u := Upsert(h, entry);
    UpsertContents(h, entry);
    if i < |h| {
      assert multiset(u) == multiset(h)[h[i] := multiset(h)[h[i]] - 1][entry := multiset(h)[entry] + (if entry == h[i] then 0 else 1)];
      assert entry != h[i] ==> entry !in h;
      forall x | x in u && x != entry ensures x in h && x != h[i] {
        assert multiset(u)[x] > 0;
      }
    } else {
      assert entry !in h;
      assert multiset(u) == multiset{entry} + multiset(h);
    }
  }

  /** What the stored list holds: at most twenty entries, newest first,
      drawn from the upserted list; while that list fits, every entry of
      it is kept, and an entry the cap drops is no newer than any kept
      one. */
  lemma AddedFacts(h: seq<Entry>, entry: Entry)
    ensures var r := Added(h, entry);
      && |r| <= MaxEntries
      && Sorting.SortedDesc(r, JoinedAt)
      && multiset(r) <= multiset(Upsert(h, entry))
      && (|Upsert(h, entry)| <= MaxEntries ==> multiset(r) == multiset(Upsert(h, entry)))
      && (forall x :: x in Upsert(h, entry) && x !in r ==> forall i :: 0 <= i < |r| ==> r[i].joinedAt >= x.joinedAt)
  {
    CappedFacts(Upsert(h, entry));
  }

  /** Each stored entry is the new one or an entry read before. */
  lemma AddedMembers(h: seq<Entry>, entry: Entry)
    ensures forall x :: x in Added(h, entry) ==> x == entry || x in h
  {
    var r := Added(h, entry);
    AddedFacts(h, entry);
    UpsertContents(h, entry);
    forall x | x in r ensures x in Upsert(h, entry) { assert x in multiset(r); }
  }

  /** Unique slug-and-role keys stay unique in the stored list. */
  lemma AddedKeepsUnique(h: seq<Entry>, entry: Entry)
    requires UniqueKeys(h)
    ensures UniqueKeys(Added(h, entry))
  {
    var u := Upsert(h, entry);
    var r := Added(h, entry);
    UpsertKeepsUnique(h, entry);
    AddedFacts(h, entry);
    forall x | x in r ensures x in u { assert x in multiset(r); }
    forall x ensures multiset(r)[x] <= 1 {
      assert multiset(r)[x] <= multiset(u)[x];
    }
  }

  /** The new entry is always kept unless twenty entries at least as new
      as it are kept instead. */
  lemma AddedKeepsNewEntry(h: seq<Entry>, entry: Entry)
    ensures var r := Added(h, entry);
      entry in r || (|r| == MaxEntries && forall i :: 0 <= i < |r| ==> r[i].joinedAt >= entry.joinedAt)
  {
    AddedFacts(h, entry);
    UpsertContents(h, entry);
    var u := Upsert(h, entry);
    var r := Added(h, entry);
    if |u| <= MaxEntries {
      assert entry in multiset(u);
    }
  }

  /** `removePoolFromHistory`'s filter condition. */
  function NotKey(slug: string, role: Role): Entry -> bool {
    e => !SameKey(e, slug, role)
  }

  /** The list `removePoolFromHistory` stores: exactly the entries without
      that slug and role, in the order read, so still newest first. */
  function Removed(h: seq<Entry>, slug: string, role: Role): (r: seq<Entry>)
    ensures forall e :: e in r <==> e in h && !SameKey(e, slug, role)
  {
    Keep(h, NotKey(slug, role))
  }

  /** Removing keeps a newest-first list newest first, and leaves a list
      without that slug and role as it was. */
  lemma RemovedOrder(h: seq<Entry>, slug: string, role: Role)
    ensures Sorting.SortedDesc(h, JoinedAt) ==> Sorting.SortedDesc(Removed(h, slug, role), JoinedAt)
    ensures (forall e :: e in h ==> !SameKey(e, slug, role)) ==> Removed(h, slug, role) == h
  {
    if Sorting.SortedDesc(h, JoinedAt) {
      KeepSorted(h, NotKey(slug, role));
    }
    if forall e :: e in h ==> !SameKey(e, slug, role) {
      KeepAll(h, NotKey(slug, role));
    }
  }

  /** The browser's storage slot for the history. */
  class HistoryStorage {
    var item: Option<Json>

    constructor()
      ensures item == None
    {
      item := None;
    }

    function History(): seq<Entry>
      reads this
    {
      GetPoolHistory(item)
    }

    /** `addPoolToHistory`: find the first entry with the same slug and
        role, replace it or put the new entry in front, sort newest first,
        keep twenty and store the list. */
    method AddPoolToHistory(entry: Entry)
      modifies this
      ensures History() == Added(old(History()), entry)
      ensures item == Some(EncodeAll(History()))
    {
      var history := GetPoolHistory(item);
      ghost var read := history;
      var i := FindIndex(history, entry.slug, entry.role);
      if i < |history| {
        history := history[i := entry];
      } else {
        history := [entry] + history;
      }
      assert history == Upsert(read, entry);
      var sorted := Sorting.SortDesc(history, JoinedAt);
      var kept := sorted[..if |sorted| < MaxEntries then |sorted| else MaxEntries];
      assert kept == Added(read, entry);
      AddedFacts(read, entry);
      item := Some(EncodeAll(kept));
      ReadBack(kept);
    }

    /** `removePoolFromHistory`: store the list without that slug and
        role. */
    method RemovePoolFromHistory(slug: string, role: Role)
      modifies this
      ensures History() == Removed(old(History()), slug, role)
      ensures item == Some(EncodeAll(History()))
    {
      var history := GetPoolHistory(item);
      var filtered := Keep(history, NotKey(slug, role));
      KeepSorted(history, NotKey(slug, role));
      item := Some(EncodeAll(filtered));
      ReadBack(filtered);
    }
  }
}
