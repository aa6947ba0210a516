/** The times collected for each aggregate entry, in a buffer with one slot per rank. */
module SiteDatas {
  import opened Keys

  /** The `siteData` buffer of an aggregate record and the number of slots used. */
  class SiteData {
    const siteData: array<real>
    var siteDataIdx: nat

    /** The slots in use. */
    ghost function Times(): seq<real>
      requires siteDataIdx <= siteData.Length
      reads this, siteData
    {
      siteData[..siteDataIdx]
    }

    constructor (size: nat, first: real)
      requires size > 0
      ensures fresh(siteData) && siteData.Length == size && siteDataIdx == 1 && Times() == [first]
    {
      siteData := new real[size](_ => 0.0);
      siteDataIdx := 1;
      new;
      siteData[0] := first;
    }

    method Append(x: real)
      requires siteDataIdx < siteData.Length
      modifies this, siteData
      ensures siteDataIdx == old(siteDataIdx) + 1 && Times() == old(Times()) + [x]
    {
      siteData[siteDataIdx] := x;
      siteDataIdx := siteDataIdx + 1;
    }
  }

  /** No two entries share a buffer. */
  ghost predicate Apart(sites: map<AggKey, SiteData>) {
    forall k, l :: k in sites && l in sites && k != l ==> sites[k] != sites[l] && sites[k].siteData != sites[l].siteData
  }

  lemma ApartFrom(sites: map<AggKey, SiteData>, key: AggKey)
    requires Apart(sites) && key in sites
    ensures forall k :: k in sites && k != key ==>
      sites[k] != sites[key] && sites[k].siteData != sites[key].siteData
  {
  }

  /** The buffers have `size` slots, are inside `repr`, and share nothing. */
  ghost predicate AllSites(sites: map<AggKey, SiteData>, size: nat, repr: set<object>)
    reads repr
  {
    && (forall k :: k in sites ==>
          var d := sites[k]; d in repr && d.siteData in repr && d.siteData.Length == size && d.siteDataIdx <= size)
    && Apart(sites)
  }

  ghost function TimesOf(sites: map<AggKey, SiteData>, size: nat, repr: set<object>): (v: map<AggKey, seq<real>>)
    requires AllSites(sites, size, repr)
    reads repr
    ensures v.Keys == sites.Keys && forall k :: k in v ==> v[k] == sites[k].Times() && |v[k]| <= size
  {
    map k | k in sites :: sites[k].Times()
  }

  lemma ApartAdded(sites: map<AggKey, SiteData>, key: AggKey, d: SiteData)
    requires Apart(sites) && forall k :: k in sites ==> sites[k] != d && sites[k].siteData != d.siteData
    ensures Apart(sites[key := d])
  {
  }

  lemma SiteAdded(sites: map<AggKey, SiteData>, size: nat, repr: set<object>, key: AggKey, d: SiteData)
    requires AllSites(sites, size, repr) && d !in repr && d.siteData !in repr && d.siteData.Length == size
      && d.siteDataIdx <= size
    ensures AllSites(sites[key := d], size, repr + {d, d.siteData})
    ensures TimesOf(sites[key := d], size, repr + {d, d.siteData}) == TimesOf(sites, size, repr)[key := d.Times()]
  {
    hide Apart;
    ApartAdded(sites, key, d);
  }

  /** Writing to one entry's buffer changes its times only. */
  lemma OneGrown(sites: map<AggKey, SiteData>, size: nat, repr: set<object>, key: AggKey,
      before: map<AggKey, seq<real>>)
    requires AllSites(sites, size, repr) && key in sites && sites.Keys == before.Keys
    requires forall k :: k in sites && k != key ==> sites[k].Times() == before[k]
    ensures TimesOf(sites, size, repr) == before[key := sites[key].Times()]
  {
  }

  /** The buffers of the aggregate table, by key. */
  class SiteTable {
    const size: nat
    var sites: map<AggKey, SiteData>
    ghost var repr: set<object>

    ghost predicate Valid()
      reads this, repr
    {
      this !in repr && AllSites(sites, size, repr)
    }

    ghost function View(): map<AggKey, seq<real>>
      requires Valid()
      reads this, repr
    {
      TimesOf(sites, size, repr)
    }

    constructor (size: nat)
      ensures Valid() && this.size == size && View() == map[] && repr == {}
    {
      this.size := size;
      sites, repr := map[], {};
    }

    /** The first time of an entry. */
    method Start(key: AggKey, x: real)
      requires Valid() && key !in View() && size > 0
      modifies this
      ensures Valid() && fresh(repr - old(repr)) && View() == old(View())[key := [x]]
    {
      hide AllSites, TimesOf;
      var d := new SiteData(size, x);
      SiteAdded(sites, size, repr, key, d);
      sites := sites[key := d];
      repr := repr + {d, d.siteData};
    }

    /** A further time of an entry. */
    method Append(key: AggKey, x: real)
      requires Valid() && key in View() && |View()[key]| < size
      modifies repr
      ensures Valid() && repr == old(repr) && View() == old(View())[key := old(View())[key] + [x]]
    {
      hide Apart, TimesOf;
      ghost var before := View();
      ApartFrom(sites, key);
      sites[key].Append(x);
      OneGrown(sites, size, repr, key, before);
    }
  }
}
