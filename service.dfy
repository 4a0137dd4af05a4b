/** The record service: create, list, search and delete over the clans
    table. Each handler works on the table it is given, as one unit of work. */
module Service {
  import opened Wrappers
  import opened Text
  import opened Clans

  /** An HTTP error response: status code and detail message. */
  datatype HttpError = HttpError(status: nat, detail: string)

  /** Searches shorter than this are refused. */
  const MinQueryLength: nat := 3

  const QueryTooShort := HttpError(400, "Search must be at least 3 characters")
  const ClanNotFound := HttpError(404, "Clan not found")

  /** The confirmation detail of a successful delete. */
  const DeletedDetail := "Clan deleted"

  /** Adds a clan with the given name and region, a fresh id and the current
      time. There is no duplicate-name check and no trimming. */
  method CreateClan(store: ClanStore, name: string, region: string, id: Id, now: Timestamp)
    returns (created: Clan)
    requires store.Valid()
    requires id !in store.Ids()
    modifies store
    ensures store.Valid()
    ensures created == Clan(id, name, region, now)
    ensures store.clans == old(store.clans) + [created]
  {
    created := Clan(id, name, region, now);
    AppendKeepsUniqueIds(store.clans, [created]);
    store.clans := store.clans + [created];
  }

  /** Every stored clan, in table order. */
  method ListClans(store: ClanStore) returns (all: seq<Clan>)
    ensures all == store.clans
  {
    all := store.clans;
  }

  /** `name ILIKE '%q%'`, with `q` taken literally. */
  predicate NameMatches(name: string, q: string) {
    Contains(Lower(name), Lower(q))
  }

  /** The stored clans a search returns: the matching ones, in table order. */
  function Matching(clans: seq<Clan>, q: string): (found: seq<Clan>)
    ensures forall c :: c in found <==> c in clans && NameMatches(c.name, q)
    ensures multiset(found) <= multiset(clans)
  {
    if clans == [] then []
    else
      assert clans == [clans[0]] + clans[1..];
      (if NameMatches(clans[0].name, q) then [clans[0]] else []) + Matching(clans[1..], q)
  }

  /** Refuses a query shorter than three characters; otherwise returns the
      clans whose name contains the query, ignoring case. */
  method FindClan(store: ClanStore, q: string) returns (r: Result<seq<Clan>, HttpError>)
    ensures r.Err? <==> |q| < MinQueryLength
    ensures r.Err? ==> r.error == QueryTooShort
    ensures r.Ok? ==> r.value == Matching(store.clans, q)
  {
    if |q| < MinQueryLength {
      return Err(QueryTooShort);
    }
    r := Ok(Matching(store.clans, q));
  }

  /** The first stored clan with the given id, as `.filter(id == ...).first()` finds it. */
  function FindById(clans: seq<Clan>, id: Id): (k: Option<nat>)
    ensures k.None? <==> id !in IdsOf(clans)
    ensures k.Some? ==> k.value < |clans| && clans[k.value].id == id
    ensures k.Some? ==> forall j :: 0 <= j < k.value ==> clans[j].id != id
  {
    if clans == [] then None
    else if clans[0].id == id then Some(0)
    else
      assert clans == [clans[0]] + clans[1..];
      match FindById(clans[1..], id)
      case None => None
      case Some(k) => Some(k + 1)
  }

  /** Removing one row keeps the primary key and frees exactly that row's id. */
  lemma RemoveAtIds(clans: seq<Clan>, k: nat)
    requires UniqueIds(clans) && k < |clans|
    ensures UniqueIds(clans[..k] + clans[k + 1..])
    ensures IdsOf(clans[..k] + clans[k + 1..]) == IdsOf(clans) - {clans[k].id}
  {
    var rest := clans[..k] + clans[k + 1..];
    assert forall i :: 0 <= i < |rest| ==> rest[i] == clans[if i < k then i else i + 1];
    forall x | x in IdsOf(clans) - {clans[k].id} ensures x in IdsOf(rest) {
      var c :| c in clans && c.id == x;
      var i :| 0 <= i < |clans| && clans[i] == c;
      assert rest[if i < k then i else i - 1] == c;
    }
  }

  /** Refuses an id that is not stored; otherwise deletes that clan and
      confirms. */
  method DeleteClan(store: ClanStore, id: Id) returns (r: Result<string, HttpError>)
    requires store.Valid()
    modifies store
    ensures store.Valid()
    ensures id !in old(store.Ids()) ==> r == Err(ClanNotFound) && store.clans == old(store.clans)
    ensures id in old(store.Ids()) ==>
      var k := FindById(old(store.clans), id).value;
      r == Ok(DeletedDetail) && store.clans == old(store.clans)[..k] + old(store.clans)[k + 1..]
    ensures store.Ids() == old(store.Ids()) - {id}
  {
    var found := FindById(store.clans, id);
    if found.None? {
      return Err(ClanNotFound);
    }
    var k := found.value;
    RemoveAtIds(store.clans, k);
    store.clans := store.clans[..k] + store.clans[k + 1..];
    r := Ok(DeletedDetail);
  }

  /** Searching is order-preserving: it distributes over concatenation. */
  lemma {:induction false} MatchingAppend(a: seq<Clan>, b: seq<Clan>, q: string)
    ensures Matching(a + b, q) == Matching(a, q) + Matching(b, q)
  {
    if a == [] {
      assert a + b == b;
    } else {
      assert (a + b)[1..] == a[1..] + b;
      MatchingAppend(a[1..], b, q);
    }
  }

  /** A stored clan is found exactly when the query, lower-cased, occurs
      somewhere in its lower-cased name: any piece of the name, in any
      letter case, finds it. */
  lemma FindsByNamePiece(clans: seq<Clan>, c: Clan, q: string)
    requires c in clans
    ensures c in Matching(clans, q) <==> exists i: nat :: OccursAt(Lower(c.name), Lower(q), i)
  {
    ContainsIff(Lower(c.name), Lower(q));
  }

  /** A clan just created is found by a search on any piece of its name, in
      any letter case, and it comes after every earlier match. */
  lemma CreatedThenFound(before: seq<Clan>, created: Clan, q: string, i: nat)
    requires OccursAt(Lower(created.name), Lower(q), i)
    ensures Matching(before + [created], q) == Matching(before, q) + [created]
  {
    MatchingAppend(before, [created], q);
    ContainsIff(Lower(created.name), Lower(q));
    assert [created][1..] == [];
  }

  /** The query's letter case does not matter. */
  lemma {:induction false} MatchingIgnoresQueryCase(clans: seq<Clan>, q: string)
    ensures Matching(clans, q) == Matching(clans, Lower(q))
  {
    assert Lower(Lower(q)) == Lower(q);
    if clans != [] {
      MatchingIgnoresQueryCase(clans[1..], q);
    }
  }
}
