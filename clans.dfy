/** The one persisted entity and the table that holds it. */
module Clans {

  /** A clan's primary key: a UUID, written as its canonical text, so that
      two ids are the same key exactly when their texts are equal. */
  type Id = string

  /** A timezone-aware instant, normalised to UTC (microseconds since the Unix epoch). */
  type Timestamp = int

  /** A row of the `clans` table. */
  datatype Clan = Clan(id: Id, name: string, region: string, createdAt: Timestamp)

  /** The primary-key constraint: no two rows share an id. */
  predicate UniqueIds(clans: seq<Clan>) {
    forall i, j :: 0 <= i < j < |clans| ==> clans[i].id != clans[j].id
  }

  /** The ids in use. */
  function IdsOf(clans: seq<Clan>): set<Id> {
    set c | c in clans :: c.id
  }

  /** The `clans` table, in insertion order: the state that the loader and
      the service share and update in place. */
  class ClanStore {
    var clans: seq<Clan>

    /** An empty table. */
    constructor ()
      ensures Valid() && clans == []
    {
      clans := [];
    }

    /** The primary key holds: as many ids as rows. */
    predicate Valid()
      reads this
      ensures Valid() <==> |Ids()| == |clans|
    {
      UniqueIdsCount(clans);
      UniqueIds(clans)
    }

    function Ids(): set<Id>
      reads this
    {
      IdsOf(clans)
    }
  }

  /** Adding one row adds its id to the ids in use. */
  lemma IdsOfSnoc(p: seq<Clan>, x: Clan)
    ensures IdsOf(p + [x]) == IdsOf(p) + {x.id}
  {
    assert forall c :: c in p + [x] <==> c in p || c == x;
  }

  /** Adding one row keeps the key unique exactly when the rows so far have
      unique ids and the new id is not among them. */
  lemma UniqueIdsSnoc(p: seq<Clan>, x: Clan)
    ensures UniqueIds(p + [x]) <==> UniqueIds(p) && x.id !in IdsOf(p)
  {
    var all := p + [x];
    if x.id in IdsOf(p) {
      var i :| 0 <= i < |p| && p[i].id == x.id;
      assert all[i].id == all[|p|].id;
    } else if !UniqueIds(p) {
      var i, j :| 0 <= i < j < |p| && p[i].id == p[j].id;
      assert all[i] == p[i] && all[j] == p[j];
    } else {
      forall i, j | 0 <= i < j < |all| ensures all[i].id != all[j].id {
        if j == |p| { assert all[i] in p; } else { assert all[i] == p[i] && all[j] == p[j]; }
      }
    }
  }

  /** A table never has more ids than rows, and it has as many exactly when
      no two rows share an id. */
  lemma {:induction false} UniqueIdsCount(clans: seq<Clan>)
    ensures |IdsOf(clans)| <= |clans|
    ensures UniqueIds(clans) <==> |IdsOf(clans)| == |clans|
  {
    if clans != [] {
      var n := |clans| - 1;
      var p, x := clans[..n], clans[n];
      assert clans == p + [x];
      UniqueIdsCount(p);
      IdsOfSnoc(p, x);
      UniqueIdsSnoc(p, x);
    }
  }

  /** Appending rows whose ids are new and pairwise distinct keeps the primary key. */
  lemma {:induction false} AppendKeepsUniqueIds(clans: seq<Clan>, added: seq<Clan>)
    requires UniqueIds(clans) && UniqueIds(added)
    requires forall c :: c in added ==> c.id !in IdsOf(clans)
    ensures UniqueIds(clans + added)
  {
    var all := clans + added;
    forall i, j | 0 <= i < j < |all| ensures all[i].id != all[j].id {
      if i < |clans| && j >= |clans| {
        assert all[j] in added;
        assert all[i] in clans;
      }
    }
  }
}
