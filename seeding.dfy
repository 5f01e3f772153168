/** What seeding a training catalog adds to a module table: each catalog
    entry, in order, becomes a new module unless a module of that name
    already exists. */
module Seeding {
  import opened Common
  import opened Records

  function CatalogNames(catalog: seq<ModuleCreate>): (r: seq<string>)
    ensures |r| == |catalog| && forall i :: 0 <= i < |catalog| ==> r[i] == catalog[i].name
  {
    seq(|catalog|, i requires 0 <= i < |catalog| => catalog[i].name)
  }

  /** The modules created by seeding `catalog` into a table holding
      `existing`, entry `k` getting id `ids[k]` if it is created. Each entry
      is checked against the table as it stands at that point, including the
      modules created before it. */
  function Seeded(existing: seq<TrainingModule>, catalog: seq<ModuleCreate>, ids: seq<Id>): (r: seq<TrainingModule>)
    requires |ids| == |catalog|
    ensures |r| <= |catalog|
    ensures forall m :: m in r ==> m.name !in ModuleNames(existing) && m.id in ids
    decreases |catalog|
  {
    if catalog == [] then []
    else
      var n := |catalog| - 1;
      var before := Seeded(existing, catalog[..n], ids[..n]);
      assert forall x :: x in ids[..n] ==> x in ids;
      if catalog[n].name in ModuleNames(existing + before) then before
      else
        assert catalog[n].name !in ModuleNames(existing) by { NamesAppend(existing, before); }
        before + [NewModule(ids[n], catalog[n])]
  }

  lemma NamesAppend(a: seq<TrainingModule>, b: seq<TrainingModule>)
    ensures ModuleNames(a + b) == ModuleNames(a) + ModuleNames(b)
  {
  }

  /** Seeding creates a module for exactly the catalog names that were not
      yet present, and for no name twice. */
  lemma {:induction false} SeededNames(existing: seq<TrainingModule>, catalog: seq<ModuleCreate>, ids: seq<Id>)
    requires |ids| == |catalog|
    ensures Elements(ModuleNames(Seeded(existing, catalog, ids)))
         == Elements(CatalogNames(catalog)) - Elements(ModuleNames(existing))
    ensures Distinct(ModuleNames(Seeded(existing, catalog, ids)))
    decreases |catalog|
  {
    if catalog != [] {
      var n := |catalog| - 1;
      var before := Seeded(existing, catalog[..n], ids[..n]);
      SeededNames(existing, catalog[..n], ids[..n]);
      NamesAppend(existing, before);
      assert CatalogNames(catalog) == CatalogNames(catalog[..n]) + [catalog[n].name];
      var c := catalog[n];
      if c.name !in ModuleNames(existing + before) {
        var m := NewModule(ids[n], c);
        NamesAppend(before, [m]);
        var names := ModuleNames(before + [m]);
        assert Seeded(existing, catalog, ids) == before + [m];
        assert names == ModuleNames(before) + [c.name];
        assert Elements(names) == Elements(ModuleNames(before)) + {c.name};
        assert c.name !in Elements(ModuleNames(existing));
        AppendDistinct(ModuleNames(before), c.name);
      }
    }
  }

  /** After seeding every catalog name is present, and nothing is created
      when all of them were present before. */
  lemma SeedingOutcome(existing: seq<TrainingModule>, catalog: seq<ModuleCreate>, ids: seq<Id>)
    requires |ids| == |catalog|
    ensures forall c :: c in catalog ==> c.name in ModuleNames(existing + Seeded(existing, catalog, ids))
    ensures (forall c :: c in catalog ==> c.name in ModuleNames(existing)) ==> Seeded(existing, catalog, ids) == []
  {
    var created := Seeded(existing, catalog, ids);
    SeededNames(existing, catalog, ids);
    NamesAppend(existing, created);
    forall c | c in catalog ensures c.name in ModuleNames(existing + created) {
      var k :| 0 <= k < |catalog| && catalog[k] == c;
      assert CatalogNames(catalog)[k] == c.name;
      assert c.name in Elements(CatalogNames(catalog));
    }
    if forall c :: c in catalog ==> c.name in ModuleNames(existing) {
      NothingToSeed(existing, catalog, ids);
    }
  }

  /** Every created module is its catalog entry under its own id. */
  lemma {:induction false} SeededFromCatalog(existing: seq<TrainingModule>, catalog: seq<ModuleCreate>, ids: seq<Id>)
    requires |ids| == |catalog|
    ensures forall m :: m in Seeded(existing, catalog, ids) ==>
      exists k :: 0 <= k < |catalog| && m == NewModule(ids[k], catalog[k])
    decreases |catalog|
  {
    if catalog != [] {
      var n := |catalog| - 1;
      SeededFromCatalog(existing, catalog[..n], ids[..n]);
      forall m | m in Seeded(existing, catalog, ids)
        ensures exists k :: 0 <= k < |catalog| && m == NewModule(ids[k], catalog[k])
      {
        if m in Seeded(existing, catalog[..n], ids[..n]) {
          var k :| 0 <= k < n && m == NewModule(ids[..n][k], catalog[..n][k]);
          assert m == NewModule(ids[k], catalog[k]);
        } else {
          assert m == NewModule(ids[n], catalog[n]);
        }
      }
    }
  }

  /** When every catalog name is already present, seeding creates nothing. */
  lemma {:induction false} NothingToSeed(existing: seq<TrainingModule>, catalog: seq<ModuleCreate>, ids: seq<Id>)
    requires |ids| == |catalog|
    requires forall c :: c in catalog ==> c.name in ModuleNames(existing)
    ensures Seeded(existing, catalog, ids) == []
    decreases |catalog|
  {
    if catalog != [] {
      var n := |catalog| - 1;
      assert forall c :: c in catalog[..n] ==> c in catalog;
      NothingToSeed(existing, catalog[..n], ids[..n]);
      assert catalog[n] in catalog;
      assert existing + [] == existing;
    }
  }

  /** Seeding a second time, whatever ids it is offered, creates nothing. */
  lemma SeedingIdempotent(existing: seq<TrainingModule>, catalog: seq<ModuleCreate>, ids: seq<Id>, moreIds: seq<Id>)
    requires |ids| == |catalog| == |moreIds|
    ensures Seeded(existing + Seeded(existing, catalog, ids), catalog, moreIds) == []
  {
    var created := Seeded(existing, catalog, ids);
    SeededNames(existing, catalog, ids);
    NamesAppend(existing, created);
    forall c | c in catalog ensures c.name in ModuleNames(existing + created) {
      var k :| 0 <= k < |catalog| && catalog[k] == c;
      assert CatalogNames(catalog)[k] == c.name;
      assert c.name in Elements(CatalogNames(catalog));
    }
    NothingToSeed(existing + created, catalog, moreIds);
  }

  /** The id offered to catalog entry `i` is used neither by the modules
      that existed nor by those created for earlier entries. */
  lemma FreshSeedId(existing: seq<TrainingModule>, created: seq<TrainingModule>, ids: seq<Id>, i: nat)
    requires Distinct(ids) && i < |ids|
    requires forall id :: id in ids ==> id !in ModuleIds(existing)
    requires forall m :: m in created ==> m.id in ids[..i]
    ensures ids[i] !in ModuleIds(existing + created)
  {
    assert ids[i] !in ids[..i] by {
      forall k | 0 <= k < i ensures ids[k] != ids[i] { }
    }
    assert ids[i] in ids;
    var all := existing + created;
    forall k | 0 <= k < |all| ensures all[k].id != ids[i] {
      if k >= |existing| {
        assert all[k] in created;
      } else {
        assert ModuleIds(existing)[k] == all[k].id;
      }
    }
  }

  /** One step of the seeding loop keeps its invariants. */
  lemma SeedStep(existing: seq<TrainingModule>, catalog: seq<ModuleCreate>, ids: seq<Id>, i: nat,
                 created: seq<TrainingModule>)
    requires |ids| == |catalog| && Distinct(ids) && i < |catalog|
    requires forall id :: id in ids ==> id !in ModuleIds(existing)
    requires created == Seeded(existing, catalog[..i], ids[..i])
    requires Distinct(ModuleIds(existing + created))
    ensures var next := if catalog[i].name in ModuleNames(existing + created) then created
                        else created + [NewModule(ids[i], catalog[i])];
      next == Seeded(existing, catalog[..i + 1], ids[..i + 1])
      && Distinct(ModuleIds(existing + next))
  {
    assert catalog[..i + 1][..i] == catalog[..i];
    assert ids[..i + 1][..i] == ids[..i];
    assert forall x :: x in ids[..i] ==> x in ids[..i + 1];
    if catalog[i].name !in ModuleNames(existing + created) {
      var m := NewModule(ids[i], catalog[i]);
      FreshSeedId(existing, created, ids, i);
      assert existing + (created + [m]) == (existing + created) + [m];
      assert ModuleIds((existing + created) + [m]) == ModuleIds(existing + created) + [m.id];
      AppendDistinct(ModuleIds(existing + created), m.id);
    }
  }

  /** The loop of the catalog seeding: walks the catalog in order and creates
      module `k` from entry `k` under `ids[k]` when its name is not yet among
      the existing and the already created modules. */
  method SeedModules(existing: seq<TrainingModule>, catalog: seq<ModuleCreate>, ids: seq<Id>)
    returns (created: seq<TrainingModule>)
    requires |ids| == |catalog| && Distinct(ids)
    requires Distinct(ModuleIds(existing))
    requires forall id :: id in ids ==> id !in ModuleIds(existing)
    ensures created == Seeded(existing, catalog, ids)
    ensures Distinct(ModuleIds(existing + created))
  {
    created := [];
    for i := 0 to |catalog|
      invariant created == Seeded(existing, catalog[..i], ids[..i])
      invariant Distinct(ModuleIds(existing + created))
    {
      SeedStep(existing, catalog, ids, i, created);
      if catalog[i].name !in ModuleNames(existing + created) {
        created := created + [NewModule(ids[i], catalog[i])];
      }
    }
    assert catalog[..|catalog|] == catalog;
    assert ids[..|ids|] == ids;
  }
}
