/** PermissionService.cs: a cache over the patent and family stores (an id
    index, the two lists and the time of the last refresh), the writes that
    invalidate it, and the generation of ids that are not yet in use. The
    clock is the parameter `now`, in ticks of 100 ns; Guid.NewGuid is the
    sequence `candidates`, read from the front. */
module PermissionServices {
  import opened Outcomes
  import opened Dictionaries
  import opened Store
  import opened PatentRepositories
  import opened FamilyRepositories
  import C = Components
  import F = Families

  /** TimeSpan.FromMinutes(30), in ticks. */
  const CacheExpiration: int := 30 * 60 * 10_000_000

  /** The attempt limit of GenerateUniqueGuid. */
  const MaxAttempts: nat := 10

  function ComponentId(c: C.Component): C.Guid { c.id }

  /** The index RefreshCache builds: every patent filed by id, then every
      family filed by id on top. */
  function BuildIndex(patents: seq<C.Component>, families: seq<C.Component>): (r: Dict<C.Guid, C.Component>)
    ensures UniqueKeys(r)
  {
    IndexByUniqueKeys([], patents, ComponentId);
    IndexByUniqueKeys(IndexBy([], patents, ComponentId), families, ComponentId);
    IndexBy(IndexBy([], patents, ComponentId), families, ComponentId)
  }

  /** Looking an id up in the index finds the last family with that id; only
      when no family has it, the last patent with it. So on an id clash the
      family wins. */
  lemma BuildIndexGet(patents: seq<C.Component>, families: seq<C.Component>, id: C.Guid)
    ensures Get(BuildIndex(patents, families), id) ==
              if LastWithKey(families, ComponentId, id).Some? then LastWithKey(families, ComponentId, id)
              else LastWithKey(patents, ComponentId, id)
  {
    GetIndexBy(IndexBy([], patents, ComponentId), families, ComponentId, id);
    GetIndexBy([], patents, ComponentId, id);
  }

  /** Every patent id and every family id is in the index, each key once,
      and nothing else is. */
  lemma BuildIndexKeys(patents: seq<C.Component>, families: seq<C.Component>, id: C.Guid)
    ensures UniqueKeys(BuildIndex(patents, families))
    ensures Get(BuildIndex(patents, families), id).Some? <==>
              (exists i :: 0 <= i < |patents| && patents[i].id == id) || (exists i :: 0 <= i < |families| && families[i].id == id)
  {
    BuildIndexGet(patents, families, id);
    IndexByUniqueKeys([], patents, ComponentId);
    IndexByUniqueKeys(IndexBy([], patents, ComponentId), families, ComponentId);
  }

  /** The do-while of GenerateUniqueGuid from draw k on: the draw that makes
      the attempt count reach the limit fails before it is checked. */
  function FirstFreeFrom(candidates: seq<C.Guid>, index: Dict<C.Guid, C.Component>, k: nat): (r: Result<C.Guid>)
    requires |candidates| >= MaxAttempts && k < MaxAttempts
    ensures r.Success? ==> Get(index, r.value).None? && exists j :: k <= j < MaxAttempts - 1 && candidates[j] == r.value
    ensures r.Failure? ==> r.error == GuidExhausted
    ensures r.Failure? <==> forall j :: k <= j < MaxAttempts - 1 ==> Get(index, candidates[j]).Some?
    decreases MaxAttempts - k
  {
    if k + 1 >= MaxAttempts then Failure(GuidExhausted)
    else if Get(index, candidates[k]).None? then Success(candidates[k])
    else FirstFreeFrom(candidates, index, k + 1)
  }

  /** Draws already seen to collide can be skipped. */
  lemma {:induction false} FirstFreeSkip(candidates: seq<C.Guid>, index: Dict<C.Guid, C.Component>, k: nat)
    requires |candidates| >= MaxAttempts && k < MaxAttempts
    requires forall j :: 0 <= j < k ==> Get(index, candidates[j]).Some?
    ensures FirstFreeFrom(candidates, index, 0) == FirstFreeFrom(candidates, index, k)
  {
    if k > 0 {
      FirstFreeSkip(candidates, index, k - 1);
    }
  }

  /** The two foreach loops of RefreshCache that fill the dictionary. */
  method FillIndex(patents: seq<C.Component>, families: seq<C.Component>) returns (index: Dict<C.Guid, C.Component>)
    ensures index == BuildIndex(patents, families)
  {
    index := [];
    for i := 0 to |patents|
      invariant index == IndexBy([], patents[..i], ComponentId)
    {
      assert patents[..i + 1][..i] == patents[..i];
      index := Put(index, patents[i].id, patents[i]);
    }
    assert patents[..|patents|] == patents;
    for i := 0 to |families|
      invariant index == IndexBy(IndexBy([], patents, ComponentId), families[..i], ComponentId)
    {
      assert families[..i + 1][..i] == families[..i];
      index := Put(index, families[i].id, families[i]);
    }
    assert families[..|families|] == families;
  }

  class PermissionService {
    const db: Database
    const patentRepository: PatentRepository
    const familyRepository: FamilyRepository

    var cachedPermissions: Option<Dict<C.Guid, C.Component>>
    var cachedPatents: Option<seq<C.Component>>
    var cachedFamilies: Option<seq<C.Component>>
    var lastCacheUpdate: Option<int>

    /** Both repositories share the store; the four cache fields are set and
        cleared together; a filled cache is the index of its two lists, and
        the cached families carry no children. */
    ghost predicate Valid()
      reads this
    {
      && patentRepository.db == db && familyRepository.db == db
      && cachedPatents.Some? == cachedPermissions.Some?
      && cachedFamilies.Some? == cachedPermissions.Some?
      && lastCacheUpdate.Some? == cachedPermissions.Some?
      && (cachedPermissions.Some? ==>
            cachedPermissions.value == BuildIndex(cachedPatents.value, cachedFamilies.value)
            && forall i :: 0 <= i < |cachedFamilies.value| ==>
                          cachedFamilies.value[i].Family? && cachedFamilies.value[i].children == [])
    }

    /** The condition every read tests before it uses the cache: nothing
        cached, no refresh time, or strictly more than 30 minutes since. */
    predicate Stale(now: int)
      reads this
      ensures (cachedPermissions.Some? && lastCacheUpdate.Some?
               && now <= lastCacheUpdate.value + CacheExpiration) ==> !Stale(now)
      ensures lastCacheUpdate.Some? && now > lastCacheUpdate.value + CacheExpiration ==> Stale(now)
    {
      cachedPermissions.None? || lastCacheUpdate.None? || now - lastCacheUpdate.value > CacheExpiration
    }

    /** Once the cache is stale it stays stale as the clock advances, until
        a refresh. */
    lemma StaleStaysStale(now: int, later: int)
      requires now <= later && Stale(now)
      ensures Stale(later)
    {
    }

    /** The state RefreshCache leaves at time now. */
    ghost predicate Refreshed(now: int)
      reads this, patentRepository.db, familyRepository.db
    {
      && cachedPatents == Some(patentRepository.AllPatents())
      && cachedFamilies == Some(familyRepository.AllFamilies())
      && cachedPermissions == Some(BuildIndex(cachedPatents.value, cachedFamilies.value))
      && lastCacheUpdate == Some(now)
    }

    ghost predicate Invalidated()
      reads this
    {
      cachedPermissions.None? && cachedPatents.None? && cachedFamilies.None? && lastCacheUpdate.None?
    }

    constructor (db: Database)
      ensures this.db == db && Valid() && Invalidated()
    {
      this.db := db;
      patentRepository := new PatentRepository(db);
      familyRepository := new FamilyRepository(db);
      cachedPermissions := None;
      cachedPatents := None;
      cachedFamilies := None;
      lastCacheUpdate := None;
    }

    /** RefreshCache: reload both lists, file patents then families by id,
        and record the time. */
    method RefreshCache(now: int)
      requires Valid()
      modifies this
      ensures Valid() && Refreshed(now) && !Stale(now)
    {
      var patents := patentRepository.GetAll();
      var families := familyRepository.GetAll();
      var index := FillIndex(patents, families);
      cachedPatents := Some(patents);
      cachedFamilies := Some(families);
      cachedPermissions := Some(index);
      lastCacheUpdate := Some(now);
      RefreshedIsValid(now);
    }

    /** A freshly loaded cache satisfies the cache invariant. */
    lemma RefreshedIsValid(now: int)
      requires patentRepository.db == db && familyRepository.db == db && Refreshed(now)
      ensures Valid() && !Stale(now)
    {
      var families := familyRepository.AllFamilies();
      assert forall i :: 0 <= i < |families| ==> families[i].Family? && families[i].children == [];
    }

    /** InvalidateCache: clear all four fields, so the next read refreshes. */
    method InvalidateCache()
      requires Valid()
      modifies this
      ensures Valid() && Invalidated()
      ensures forall now :: Stale(now)
    {
      cachedPermissions := None;
      cachedPatents := None;
      cachedFamilies := None;
      lastCacheUpdate := None;
    }

    /** GetAll: every indexed component, in the index's order. */
    method GetAll(now: int) returns (r: seq<C.Component>)
      requires Valid()
      modifies this
      ensures Valid() && !Stale(now)
      ensures old(Stale(now)) ==> Refreshed(now)
      ensures !old(Stale(now)) ==> unchanged(this)
      ensures r == Values(cachedPermissions.value)
    {
      if cachedPermissions.None? || lastCacheUpdate.None? || now - lastCacheUpdate.value > CacheExpiration {
        RefreshCache(now);
      }
      r := Values(cachedPermissions.value);
    }

    /** GetAllPatents: the cached patent list. */
    method GetAllPatents(now: int) returns (r: seq<C.Component>)
      requires Valid()
      modifies this
      ensures Valid() && !Stale(now)
      ensures old(Stale(now)) ==> Refreshed(now)
      ensures !old(Stale(now)) ==> unchanged(this)
      ensures r == cachedPatents.value
    {
      if cachedPatents.None? || lastCacheUpdate.None? || now - lastCacheUpdate.value > CacheExpiration {
        RefreshCache(now);
      }
      r := cachedPatents.value;
    }

    /** GetAllFamilies: the cached family list, none with children. */
    method GetAllFamilies(now: int) returns (r: seq<C.Component>)
      requires Valid()
      modifies this
      ensures Valid() && !Stale(now)
      ensures old(Stale(now)) ==> Refreshed(now)
      ensures !old(Stale(now)) ==> unchanged(this)
      ensures r == cachedFamilies.value
      ensures forall i :: 0 <= i < |r| ==> r[i].Family? ==> r[i].children == []
    {
      if cachedFamilies.None? || lastCacheUpdate.None? || now - lastCacheUpdate.value > CacheExpiration {
        RefreshCache(now);
      }
      r := cachedFamilies.value;
    }

    /** GetById: the indexed component, or null for an id the (possibly
        stale) cache does not hold. */
    method GetById(id: C.Guid, now: int) returns (r: Option<C.Component>)
      requires Valid()
      modifies this
      ensures Valid() && !Stale(now)
      ensures old(Stale(now)) ==> Refreshed(now)
      ensures !old(Stale(now)) ==> unchanged(this)
      ensures r == Get(cachedPermissions.value, id)
    {
      if cachedPermissions.None? || lastCacheUpdate.None? || now - lastCacheUpdate.value > CacheExpiration {
        RefreshCache(now);
      }
      r := Get(cachedPermissions.value, id);
    }

    /** Exists: GetById is not null. */
    method Exists(id: C.Guid, now: int) returns (b: bool)
      requires Valid()
      modifies this
      ensures Valid() && !Stale(now)
      ensures old(Stale(now)) ==> Refreshed(now)
      ensures !old(Stale(now)) ==> unchanged(this)
      ensures b <==> Get(cachedPermissions.value, id).Some?
    {
      var component := GetById(id, now);
      b := component.Some?;
    }

    /** Insert: a Patent goes to the patent store, whose failure is ignored;
        a Family goes to the family store, whose failure propagates before
        the cache is invalidated. */
    method Insert(entity: C.Component, fails: bool) returns (r: Result<()>)
      requires Valid()
      modifies this, db`patents, db`families
      ensures Valid()
      ensures entity.Patent? ==> r.Success? && Invalidated() && db.families == old(db.families)
      ensures entity.Patent? ==> db.patents == if fails then old(db.patents) else old(db.patents) + [Row(entity.id, entity.name)]
      ensures entity.Family? && fails ==> r == Failure(StoreFailure) && unchanged(this) && unchanged(db)
      ensures entity.Family? && !fails ==> r.Success? && Invalidated() && db.patents == old(db.patents)
      ensures entity.Family? && !fails ==> db.families == old(db.families) + [Row(entity.id, entity.name)]
    {
      if entity.Patent? {
        patentRepository.Create(entity.id, entity.name, fails);
      } else {
        r := familyRepository.Create(entity.id, entity.name, fails);
        if r.Failure? {
          return;
        }
      }
      InvalidateCache();
      return Success(());
    }

    /** Update: only the name is written, to the store of the entity's kind. */
    method Update(entity: C.Component, fails: bool) returns (r: Result<()>)
      requires Valid()
      modifies this, db`patents, db`families
      ensures Valid()
      ensures entity.Patent? ==> r.Success? && Invalidated() && db.families == old(db.families)
      ensures entity.Patent? ==> db.patents == if fails then old(db.patents) else Renamed(old(db.patents), entity.id, entity.name)
      ensures entity.Family? && fails ==> r == Failure(StoreFailure) && unchanged(this) && unchanged(db)
      ensures entity.Family? && !fails ==> r.Success? && Invalidated() && db.patents == old(db.patents)
      ensures entity.Family? && !fails ==> db.families == Renamed(old(db.families), entity.id, entity.name)
    {
      if entity.Patent? {
        patentRepository.Update(entity.id, entity.name, fails);
      } else {
        r := familyRepository.Update(entity.id, entity.name, fails);
        if r.Failure? {
          return;
        }
      }
      InvalidateCache();
      return Success(());
    }

    /** Delete: look in the patent store first, then in the family store;
        an id in neither throws KeyNotFoundException and changes nothing. */
    method Delete(id: C.Guid, fails: bool) returns (r: Result<()>)
      requires Valid()
      modifies this, db`patents, db`families
      ensures Valid()
      ensures FindById(old(db.patents), id).Some? ==>
                r.Success? && Invalidated() && db.families == old(db.families)
                && db.patents == if fails then old(db.patents) else WithoutId(old(db.patents), id)
      ensures FindById(old(db.patents), id).None? && FindById(old(db.families), id).Some? && fails ==>
                r == Failure(StoreFailure) && unchanged(this) && unchanged(db)
      ensures FindById(old(db.patents), id).None? && FindById(old(db.families), id).Some? && !fails ==>
                r.Success? && Invalidated() && db.patents == old(db.patents)
                && db.families == WithoutId(old(db.families), id)
      ensures FindById(old(db.patents), id).None? && FindById(old(db.families), id).None? ==>
                r == Failure(KeyNotFound) && unchanged(this) && unchanged(db)
    {
      var patent := patentRepository.GetById(id);
      if patent.Some? {
        patentRepository.Delete(id, fails);
        InvalidateCache();
        return Success(());
      }
      var family := familyRepository.GetById(id);
      if family != null {
        r := familyRepository.Delete(id, fails);
        if r.Failure? {
          return;
        }
        InvalidateCache();
        return Success(());
      }
      return Failure(KeyNotFound);
    }

    /** GenerateUniqueGuid: draw, count the attempt, give up when the count
        reaches the limit, otherwise retry while the draw exists. Only the
        first nine draws are ever checked. */
    method GenerateUniqueGuid(candidates: seq<C.Guid>, now: int) returns (r: Result<C.Guid>)
      requires Valid() && |candidates| >= MaxAttempts
      modifies this
      ensures Valid() && !Stale(now)
      ensures old(Stale(now)) ==> Refreshed(now)
      ensures !old(Stale(now)) ==> unchanged(this)
      ensures r == FirstFreeFrom(candidates, cachedPermissions.value, 0)
    {
      // The first pass of the do-while: the only read that can refresh.
      var taken := Exists(candidates[0], now);
      if !taken {
        return Success(candidates[0]);
      }
      r := Redraw(candidates, now);
    }

    /** The remaining passes of the do-while, against a cache that no longer
        changes: draw, count, stop at the limit, retry while taken. */
    method Redraw(candidates: seq<C.Guid>, now: int) returns (r: Result<C.Guid>)
      requires Valid() && !Stale(now) && |candidates| >= MaxAttempts
      modifies this
      ensures unchanged(this)
      ensures r == FirstFreeFrom(candidates, cachedPermissions.value, 1)
    {
      var attempts := 1;
      while true
        invariant 1 <= attempts < MaxAttempts
        invariant Valid() && !Stale(now) && unchanged(this)
        invariant FirstFreeFrom(candidates, cachedPermissions.value, 1) ==
                  FirstFreeFrom(candidates, cachedPermissions.value, attempts)
        decreases MaxAttempts - attempts
      {
        var newGuid := candidates[attempts];
        attempts := attempts + 1;
        if attempts >= MaxAttempts {
          return Failure(GuidExhausted);
        }
        var taken := Exists(newGuid, now);
        if !taken {
          return Success(newGuid);
        }
      }
    }

    /** InsertNewFamily: a null family throws; otherwise the family gets a
        fresh id, is stored, and the cache is invalidated. */
    method InsertNewFamily(family: F.Family?, candidates: seq<C.Guid>, now: int, fails: bool) returns (r: Result<()>)
      requires Valid() && |candidates| >= MaxAttempts
      modifies this, db`families, family
      ensures Valid()
      ensures family != null ==> family.name == old(family.name) && family.children == old(family.children)
      ensures family == null ==> r == Failure(NullFamily) && unchanged(this) && unchanged(db)
      ensures family != null ==> unchanged(db`patents)
      ensures family != null ==> r.Failure? || Invalidated()
      ensures family != null && r.Success? ==>
                db.families == old(db.families) + [Row(family.id, family.name)]
                && (exists j :: 0 <= j < MaxAttempts - 1 && candidates[j] == family.id)
      ensures family != null && r.Success? && old(Stale(now)) ==>
                Get(old(BuildIndex(patentRepository.AllPatents(), familyRepository.AllFamilies())), family.id).None?
      ensures family != null && r.Success? && !old(Stale(now)) ==>
                Get(old(cachedPermissions.value), family.id).None?
    {
      if family == null {
        return Failure(NullFamily);
      }
      var guid := GenerateUniqueGuid(candidates, now);
      if guid.Failure? {
        return Failure(guid.error);
      }
      family.id := guid.value;
      r := familyRepository.Create(family.id, family.name, fails);
      if r.Failure? {
        return;
      }
      InvalidateCache();
    }
  }
}
