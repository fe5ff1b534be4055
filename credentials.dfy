/** The record store as values: each site name maps to the ordered list of its
    (user, password) entries, and the store operations as functions of the old map. */
module Credentials {
  import opened Text

  datatype Entry = Entry(user: string, password: string)

  /** The whole vault: site name to its entries, in the order they were added or read. */
  type Sites = map<string, seq<Entry>>

  /** What an operation reports; every status but Done leaves the vault as it was. */
  datatype Status = Done | DuplicateEntry | SiteNotFound | UserNotFound | MultipleUsers

  datatype Update = Update(status: Status, sites: Sites)

  /** The entries of a site, or the empty list (Go's nil slice) for an absent site. */
  function Get(m: Sites, site: string): seq<Entry>
  {
    if site in m then m[site] else []
  }

  predicate HasUser(user: string, entries: seq<Entry>)
  {
    exists j :: 0 <= j < |entries| && entries[j].user == user
  }

  /** No two entries of one site share a user. */
  predicate UniqueUsers(entries: seq<Entry>)
  {
    forall i, j :: 0 <= i < j < |entries| ==> entries[i].user != entries[j].user
  }

  predicate AllUnique(m: Sites)
  {
    forall site :: site in m ==> UniqueUsers(m[site])
  }

  /** The least index whose entry is for user, or -1 when there is none. */
  function FirstIndex(user: string, entries: seq<Entry>): (r: int)
    ensures -1 <= r < |entries|
    ensures r == -1 <==> !HasUser(user, entries)
    ensures r >= 0 ==> entries[r].user == user
    ensures forall j :: 0 <= j < r ==> entries[j].user != user
  {
    if entries == [] then -1
    else if entries[0].user == user then 0
    else
      var k := FirstIndex(user, entries[1..]);
      if k == -1 then -1 else k + 1
  }

  /** find: a linear search that stops at the first entry for user. */
  method Find(user: string, entries: seq<Entry>) returns (i: int, found: bool)
    ensures found <==> HasUser(user, entries)
    ensures found ==> 0 <= i < |entries| && entries[i].user == user
    ensures found ==> forall j :: 0 <= j < i ==> entries[j].user != user
    ensures !found ==> i == -1
    ensures i == FirstIndex(user, entries)
  {
    for k := 0 to |entries|
      invariant forall j :: 0 <= j < k ==> entries[j].user != user
    {
      if entries[k].user == user {
        return k, true;
      }
    }
    return -1, false;
  }

  /** pmAdd: refuse a user the site already has; otherwise append the entry to the
      site's list, creating the site when it is absent. */
  function AddEntry(m: Sites, site: string, user: string, password: string): (r: Update)
    ensures r.status == DuplicateEntry <==> site in m && HasUser(user, m[site])
    ensures r.status == Done || r.status == DuplicateEntry
    ensures r.status == DuplicateEntry ==> r.sites == m
    ensures r.status == Done ==>
      && r.sites.Keys == m.Keys + {site}
      && r.sites[site] == Get(m, site) + [Entry(user, password)]
      && forall s :: s in m && s != site ==> r.sites[s] == m[s]
    ensures AllUnique(m) ==> AllUnique(r.sites)
  {
    if site in m && FirstIndex(user, m[site]) >= 0 then
      Update(DuplicateEntry, m)
    else
      Update(Done, m[site := Get(m, site) + [Entry(user, password)]])
  }

  /** The list without its element at index i, the others kept in order. */
  function Without(entries: seq<Entry>, i: nat): (r: seq<Entry>)
    requires i < |entries|
    ensures |r| == |entries| - 1
    ensures forall j :: 0 <= j < i ==> r[j] == entries[j]
    ensures forall j :: i <= j < |r| ==> r[j] == entries[j + 1]
  {
    entries[..i] + entries[i + 1..]
  }

  /** Dropping an entry keeps the remaining users distinct. */
  lemma WithoutKeepsUnique(entries: seq<Entry>, i: nat)
    requires i < |entries|
    ensures UniqueUsers(entries) ==> UniqueUsers(Without(entries, i))
  {
    var rest := Without(entries, i);
    if UniqueUsers(entries) {
      forall a, b | 0 <= a < b < |rest| ensures rest[a].user != rest[b].user {
        var a' := if a < i then a else a + 1;
        var b' := if b < i then b else b + 1;
        assert rest[a] == entries[a'] && rest[b] == entries[b'];
      }
    }
  }

  /** pmRemove: drop the first entry for user from the site's list. The list is stored
      back even when it becomes empty, so the site stays in the vault. */
  function RemoveEntry(m: Sites, site: string, user: string): (r: Update)
    ensures r.status == SiteNotFound <==> site !in m
    ensures r.status == UserNotFound <==> site in m && !HasUser(user, m[site])
    ensures r.status in {Done, SiteNotFound, UserNotFound}
    ensures r.status != Done ==> r.sites == m
    ensures r.status == Done ==>
      && site in m
      && r.sites.Keys == m.Keys
      && forall s :: s in m && s != site ==> r.sites[s] == m[s]
    ensures r.status == Done ==>
      var old_ := m[site];
      var new_ := r.sites[site];
      var i := FirstIndex(user, old_);
      && 0 <= i && |new_| == |old_| - 1
      && (forall j :: 0 <= j < i ==> new_[j] == old_[j])
      && (forall j :: i <= j < |new_| ==> new_[j] == old_[j + 1])
    ensures AllUnique(m) ==> AllUnique(r.sites)
  {
    if site !in m then Update(SiteNotFound, m)
    else
      var i := FirstIndex(user, m[site]);
      if i < 0 then Update(UserNotFound, m)
      else
        var rest := Without(m[site], i);
        WithoutKeepsUnique(m[site], i);
        Update(Done, m[site := rest])
  }

  /** pmRemoveSite: delete a site holding at most one entry; refuse when it holds more. */
  function DeleteSite(m: Sites, site: string): (r: Update)
    ensures r.status == SiteNotFound <==> site !in m
    ensures r.status == MultipleUsers <==> site in m && |m[site]| > 1
    ensures r.status in {Done, SiteNotFound, MultipleUsers}
    ensures r.status != Done ==> r.sites == m
    ensures r.status == Done ==>
      && site in m && |m[site]| <= 1
      && r.sites.Keys == m.Keys - {site}
      && forall s :: s in r.sites ==> r.sites[s] == m[s]
    ensures AllUnique(m) ==> AllUnique(r.sites)
  {
    if site !in m then Update(SiteNotFound, m)
    else if |m[site]| > 1 then Update(MultipleUsers, m)
    else Update(Done, m - {site})
  }

  /** Every site name, user and password is one field: non-empty, without white space.
      Such a vault can be written to the file and read back. */
  predicate WellFormed(m: Sites)
  {
    forall site :: site in m ==>
      && IsWord(site)
      && forall i :: 0 <= i < |m[site]| ==> IsWord(m[site][i].user) && IsWord(m[site][i].password)
  }

  /** Appending an entry of words to a site named by a word keeps the vault well formed. */
  lemma AppendKeepsWellFormed(m: Sites, site: string, e: Entry)
    requires WellFormed(m) && IsWord(site) && IsWord(e.user) && IsWord(e.password)
    ensures WellFormed(m[site := Get(m, site) + [e]])
  {
    var r: Sites := m[site := Get(m, site) + [e]];
    forall s | s in r
      ensures IsWord(s)
      ensures forall i :: 0 <= i < |r[s]| ==> IsWord(r[s][i].user) && IsWord(r[s][i].password)
    {
      if s == site {
        forall i | 0 <= i < |r[s]| ensures IsWord(r[s][i].user) && IsWord(r[s][i].password) {
          if i < |Get(m, site)| {
            assert r[s][i] == m[site][i];
          }
        }
      }
    }
  }

  /** The store operations keep a vault well formed; an added entry must consist of words. */
  lemma UpdatesKeepWellFormed(m: Sites, site: string, user: string, password: string)
    requires WellFormed(m)
    ensures IsWord(site) && IsWord(user) && IsWord(password) ==>
      WellFormed(AddEntry(m, site, user, password).sites)
    ensures WellFormed(RemoveEntry(m, site, user).sites)
    ensures WellFormed(DeleteSite(m, site).sites)
  {
    if IsWord(site) && IsWord(user) && IsWord(password) {
      AppendKeepsWellFormed(m, site, Entry(user, password));
    }
    var r := RemoveEntry(m, site, user);
    if r.status == Done {
      var i := FirstIndex(user, m[site]);
      forall j | 0 <= j < |r.sites[site]|
        ensures IsWord(r.sites[site][j].user) && IsWord(r.sites[site][j].password)
      {
        assert r.sites[site][j] == m[site][if j < i then j else j + 1];
      }
    }
  }
}
