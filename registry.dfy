/**
 * The tab registry (`tabMap`): a JavaScript Map from tab id to the tab's view.
 * A JavaScript Map iterates in insertion order, so it is modelled as a sequence of
 * entries whose ids are pairwise distinct; `set` on a present id replaces the view
 * in place, `set` on a new id appends, `delete` drops the entry.
 */
module Registry {
  import opened Wrappers

  type TabId = string

  /** A view is identified by the id of its webContents. */
  type ViewId = nat

  datatype Entry = Entry(id: TabId, view: ViewId)

  function Ids(es: seq<Entry>): set<TabId> {
    set e | e in es :: e.id
  }

  function Views(es: seq<Entry>): set<ViewId> {
    set e | e in es :: e.view
  }

  /** No id occurs twice: the Map never holds two views for one id. */
  predicate UniqueIds(es: seq<Entry>) {
    forall i, j :: 0 <= i < j < |es| ==> es[i].id != es[j].id
  }

  /** No view is registered under two ids. */
  predicate DistinctViews(es: seq<Entry>) {
    forall i, j :: 0 <= i < j < |es| ==> es[i].view != es[j].view
  }

  /** Map.prototype.get. */
  function Lookup(es: seq<Entry>, id: TabId): (r: Option<ViewId>)
    ensures r.None? <==> id !in Ids(es)
    ensures r.Some? ==> Entry(id, r.value) in es
  {
    if es == [] then None
    else if es[0].id == id then Some(es[0].view)
    else
      assert forall e :: e in es[1..] ==> e in es;
      assert forall e :: e in es && e != es[0] ==> e in es[1..];
      Lookup(es[1..], id)
  }

  /** With distinct ids, the entry stored for an id is the one Lookup returns. */
  lemma LookupUnique(es: seq<Entry>, id: TabId, v: ViewId)
    requires UniqueIds(es) && Entry(id, v) in es
    ensures Lookup(es, id) == Some(v)
  {
    var r := Lookup(es, id);
    var i :| 0 <= i < |es| && es[i] == Entry(id, v);
    var j :| 0 <= j < |es| && es[j] == Entry(id, r.value);
    assert i == j;
  }

  /** Map.prototype.set: replaces the view of a present id in place, appends a new id. */
  function Put(es: seq<Entry>, id: TabId, v: ViewId): (r: seq<Entry>)
    ensures id !in Ids(es) ==> r == es + [Entry(id, v)]
    ensures |r| == if id in Ids(es) then |es| else |es| + 1
    ensures Entry(id, v) in r
    ensures forall e :: e in r ==> e in es || e == Entry(id, v)
  {
    if es == [] then [Entry(id, v)]
    else if es[0].id == id then [Entry(id, v)] + es[1..]
    else
      assert id in Ids(es) <==> id in Ids(es[1..]) by { IdsTail(es); }
      [es[0]] + Put(es[1..], id, v)
  }

  lemma IdsTail(es: seq<Entry>)
    requires es != []
    ensures Ids(es) == {es[0].id} + Ids(es[1..])
    ensures Views(es) == {es[0].view} + Views(es[1..])
  {
    assert es == [es[0]] + es[1..];
    assert forall e :: e in es <==> e == es[0] || e in es[1..];
  }

  lemma ViewsAppend(es: seq<Entry>, e: Entry)
    ensures Views(es + [e]) == Views(es) + {e.view}
  {
    assert forall x :: x in es + [e] <==> x in es || x == e;
  }

  /** After `set`, the id maps to the new view and every other id keeps its view. */
  lemma {:induction false} PutLookup(es: seq<Entry>, id: TabId, v: ViewId, k: TabId)
    ensures Lookup(Put(es, id, v), k) == if k == id then Some(v) else Lookup(es, k)
  {
    if es != [] && es[0].id != id {
      PutLookup(es[1..], id, v, k);
      assert Put(es, id, v)[1..] == Put(es[1..], id, v);
    }
  }

  /** Distinct ids, one entry at a time: the head's id is not among the tail's, and so on. */
  lemma UniqueIdsCons(es: seq<Entry>)
    requires es != []
    ensures UniqueIds(es) <==> es[0].id !in Ids(es[1..]) && UniqueIds(es[1..])
  {
    var t := es[1..];
    assert forall i :: 0 <= i < |t| ==> t[i] == es[i + 1];
    if UniqueIds(es) {
      forall e | e in t ensures e.id != es[0].id {
        var k :| 0 <= k < |t| && t[k] == e;
      }
    }
    if es[0].id !in Ids(t) && UniqueIds(t) {
      forall i, j | 0 <= i < j < |es| ensures es[i].id != es[j].id {
        if i == 0 {
          assert es[j] in t;
        } else {
          assert es[i] == t[i - 1] && es[j] == t[j - 1];
        }
      }
    }
  }

  /** Distinct views, one entry at a time. */
  lemma DistinctViewsCons(es: seq<Entry>)
    requires es != []
    ensures DistinctViews(es) <==> es[0].view !in Views(es[1..]) && DistinctViews(es[1..])
  {
    var t := es[1..];
    assert forall i :: 0 <= i < |t| ==> t[i] == es[i + 1];
    if DistinctViews(es) {
      forall e | e in t ensures e.view != es[0].view {
        var k :| 0 <= k < |t| && t[k] == e;
      }
    }
    if es[0].view !in Views(t) && DistinctViews(t) {
      forall i, j | 0 <= i < j < |es| ensures es[i].view != es[j].view {
        if i == 0 {
          assert es[j] in t;
        } else {
          assert es[i] == t[i - 1] && es[j] == t[j - 1];
        }
      }
    }
  }

  /** After `set`, the ids are the old ones plus `id`; the Map still holds one view per id. */
  lemma {:induction false} PutKeepsUnique(es: seq<Entry>, id: TabId, v: ViewId)
    ensures Ids(Put(es, id, v)) == Ids(es) + {id}
    ensures UniqueIds(es) ==> UniqueIds(Put(es, id, v))
  {
    var r := Put(es, id, v);
    if es != [] {
      IdsTail(es);
      IdsTail(r);
      UniqueIdsCons(es);
      UniqueIdsCons(r);
      if es[0].id == id {
        assert r[1..] == es[1..];
      } else {
        PutKeepsUnique(es[1..], id, v);
        assert r[1..] == Put(es[1..], id, v);
      }
    }
  }

  /** `set` adds no view except the stored one; storing a view that no entry has keeps views distinct. */
  lemma {:induction false} PutKeepsDistinct(es: seq<Entry>, id: TabId, v: ViewId)
    requires DistinctViews(es) && v !in Views(es)
    ensures Views(Put(es, id, v)) <= Views(es) + {v}
    ensures DistinctViews(Put(es, id, v))
  {
    var r := Put(es, id, v);
    if es != [] {
      IdsTail(es);
      IdsTail(r);
      DistinctViewsCons(es);
      DistinctViewsCons(r);
      if es[0].id == id {
        assert r[1..] == es[1..];
      } else {
        PutKeepsDistinct(es[1..], id, v);
        assert r[1..] == Put(es[1..], id, v);
        assert forall e :: e in r[1..] ==> e in es[1..] || e == Entry(id, v);
      }
    }
  }

  /** Map.prototype.delete: every entry for `id` is dropped, the others keep their order. */
  function Remove(es: seq<Entry>, id: TabId): (r: seq<Entry>)
    ensures forall e :: e in r <==> e in es && e.id != id
    ensures id !in Ids(es) ==> r == es
    ensures |r| <= |es|
  {
    if es == [] then []
    else if es[0].id == id then Remove(es[1..], id)
    else
      assert id !in Ids(es) ==> id !in Ids(es[1..]) by { IdsTail(es); }
      [es[0]] + Remove(es[1..], id)
  }

  /** After `delete`, the id is absent and every other id keeps its view. */
  lemma {:induction false} RemoveLookup(es: seq<Entry>, id: TabId, k: TabId)
    ensures Lookup(Remove(es, id), k) == if k == id then None else Lookup(es, k)
  {
    if es != [] {
      RemoveLookup(es[1..], id, k);
      if es[0].id != id {
        assert Remove(es, id)[1..] == Remove(es[1..], id);
      }
    }
  }

  /** `delete` takes exactly `id` out of the key set. */
  lemma {:induction false} RemoveIds(es: seq<Entry>, id: TabId)
    ensures Ids(Remove(es, id)) == Ids(es) - {id}
  {
    forall k | k in Ids(es) && k != id ensures k in Ids(Remove(es, id)) {
      var e :| e in es && e.id == k;
    }
  }

  /** `delete` keeps ids distinct. */
  lemma {:induction false} RemoveKeepsUnique(es: seq<Entry>, id: TabId)
    requires UniqueIds(es)
    ensures UniqueIds(Remove(es, id))
  {
    var r := Remove(es, id);
    if es != [] {
      UniqueIdsCons(es);
      RemoveKeepsUnique(es[1..], id);
      if es[0].id != id {
        assert r[1..] == Remove(es[1..], id);
        UniqueIdsCons(r);
      }
    }
  }

  /** `delete` keeps views distinct. */
  lemma {:induction false} RemoveKeepsDistinct(es: seq<Entry>, id: TabId)
    requires DistinctViews(es)
    ensures DistinctViews(Remove(es, id))
  {
    var r := Remove(es, id);
    if es != [] {
      DistinctViewsCons(es);
      RemoveKeepsDistinct(es[1..], id);
      if es[0].id != id {
        assert r[1..] == Remove(es[1..], id);
        DistinctViewsCons(r);
      }
    }
  }

  /** With distinct ids, `delete` of a present id shrinks the Map by exactly one entry. */
  lemma {:induction false} RemoveLength(es: seq<Entry>, id: TabId)
    requires UniqueIds(es)
    ensures |Remove(es, id)| == if id in Ids(es) then |es| - 1 else |es|
  {
    if es != [] {
      IdsTail(es);
      UniqueIdsCons(es);
      RemoveLength(es[1..], id);
    }
  }

  /** `delete` loses no view except the one stored under the deleted id. */
  lemma RemoveViews(es: seq<Entry>, id: TabId)
    requires UniqueIds(es)
    ensures Views(es) - OptSet(Lookup(es, id)) <= Views(Remove(es, id))
  {
    forall e | e in es && e.view !in OptSet(Lookup(es, id)) ensures e.view in Views(Remove(es, id)) {
      if e.id == id {
        LookupUnique(es, id, e.view);
      }
    }
  }

  /** The first entry (in Map order) whose view has the given webContents id. */
  function FirstWithView(es: seq<Entry>, sender: int): (r: Option<TabId>)
    ensures r.None? <==> forall i :: 0 <= i < |es| ==> es[i].view != sender
    ensures r.Some? ==> exists i :: 0 <= i < |es| && es[i] == Entry(r.value, sender)
                          && forall j :: 0 <= j < i ==> es[j].view != sender
  {
    if es == [] then None
    else if es[0].view == sender then Some(es[0].id)
    else
      var r := FirstWithView(es[1..], sender);
      if r.Some? then
        var i :| 0 <= i < |es[1..]| && es[1..][i] == Entry(r.value, sender)
                 && forall j :: 0 <= j < i ==> es[1..][j].view != sender;
        assert es[i + 1] == Entry(r.value, sender);
        r
      else r
  }

  /** When views are distinct, the sender's tab is the one tab registered with that view. */
  lemma FirstWithViewIsOwner(es: seq<Entry>, id: TabId, v: ViewId)
    requires DistinctViews(es) && Entry(id, v) in es
    ensures FirstWithView(es, v) == Some(id)
  {
    var r := FirstWithView(es, v);
    var i :| 0 <= i < |es| && es[i] == Entry(id, v);
    var k :| 0 <= k < |es| && es[k] == Entry(r.value, v)
             && forall j :: 0 <= j < k ==> es[j].view != v;
    assert i == k;
  }
}
