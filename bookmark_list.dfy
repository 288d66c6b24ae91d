/**
 * The dashboard's in-memory bookmark list and the pure reducer that keeps it
 * in step with the realtime change feed of the `bookmarks` table.
 *
 * Each callback of the feed hands `setBookmarks` a function of the previous
 * list: INSERT prepends unless the id is already present, DELETE filters the
 * id out, UPDATE maps entries with the id to the new record. None of them
 * modifies the previous list; each builds a new one.
 */
module BookmarkList {

  import opened Wrappers

  /** Identifiers are opaque strings assigned by the store and compared with `===`. */
  type Id = string

  /** One row of the `bookmarks` table as the store returns it. */
  datatype Bookmark = Bookmark(id: Id, title: string, url: string, userId: Id, createdAt: string)

  /** A change notification: `payload.new` for INSERT and UPDATE, `payload.old.id` for DELETE. */
  datatype Event = Inserted(record: Bookmark) | Deleted(id: Id) | Updated(record: Bookmark)

  /** `prev.some((b) => b.id === id)` */
  predicate HasId(s: seq<Bookmark>, id: Id) {
    exists i :: 0 <= i < |s| && s[i].id == id
  }

  /** No two entries of the list share an id. */
  ghost predicate UniqueIds(s: seq<Bookmark>) {
    forall i, j :: 0 <= i < j < |s| ==> s[i].id != s[j].id
  }

  /** `a` can be obtained from `b` by dropping entries, without reordering the rest. */
  predicate IsSubsequence(a: seq<Bookmark>, b: seq<Bookmark>)
    decreases |b|
  {
    if a == [] then true
    else if b == [] then false
    else if a[0] == b[0] then IsSubsequence(a[1..], b[1..])
    else IsSubsequence(a, b[1..])
  }

  /** The INSERT branch: keep `s` when the id is known, otherwise put the record in front. */
  function Insert(s: seq<Bookmark>, rec: Bookmark): (r: seq<Bookmark>)
    ensures HasId(r, rec.id)
    ensures forall b :: b in s ==> b in r
    ensures forall b :: b in r ==> b in s || b == rec
  {
    if HasId(s, rec.id) then s
    else assert ([rec] + s)[0] == rec; [rec] + s
  }

  /** The DELETE branch: `prev.filter((b) => b.id !== id)`. */
  function Remove(s: seq<Bookmark>, id: Id): (r: seq<Bookmark>)
    ensures |r| <= |s|
    ensures forall b :: b in r <==> b in s && b.id != id
  {
    if s == [] then []
    else if s[0].id != id then [s[0]] + Remove(s[1..], id)
    else Remove(s[1..], id)
  }

  /** The UPDATE branch: `prev.map((b) => (b.id === rec.id ? rec : b))`. */
  function Replace(s: seq<Bookmark>, rec: Bookmark): (r: seq<Bookmark>)
    ensures |r| == |s|
    ensures forall i :: 0 <= i < |s| && s[i].id == rec.id ==> r[i] == rec
    ensures forall i :: 0 <= i < |s| && s[i].id != rec.id ==> r[i] == s[i]
  {
    if s == [] then []
    else [if s[0].id == rec.id then rec else s[0]] + Replace(s[1..], rec)
  }

  /** The reducer run by the change-feed callback for one event. */
  function Apply(s: seq<Bookmark>, e: Event): (r: seq<Bookmark>)
    ensures |r| <= |s| + 1
    ensures forall b :: b in r ==> b in s || (!e.Deleted? && b == e.record)
  {
    match e
    case Inserted(rec) => Insert(s, rec)
    case Deleted(id) => Remove(s, id)
    case Updated(rec) => Replace(s, rec)
  }

  /** The list after the events `es`, delivered in arrival order, starting from `s`. */
  function ApplyAll(s: seq<Bookmark>, es: seq<Event>): seq<Bookmark>
    decreases |es|
  {
    if es == [] then s else ApplyAll(Apply(s, es[0]), es[1..])
  }

  /** The initial seed `data || []`: the rows read, or the empty list when the read gave none. */
  function Seed(data: Option<seq<Bookmark>>): seq<Bookmark> {
    data.GetOr([])
  }

  // ---------------------------------------------------------------------------
  // INSERT

  lemma InsertKnownIdUnchanged(s: seq<Bookmark>, rec: Bookmark)
    requires HasId(s, rec.id)
    ensures Apply(s, Inserted(rec)) == s
  {
  }

  lemma InsertNewIdPrepends(s: seq<Bookmark>, rec: Bookmark)
    requires !HasId(s, rec.id)
    ensures var r := Apply(s, Inserted(rec));
      |r| == |s| + 1 && r[0] == rec && r[1..] == s
  {
  }

  /** A duplicated INSERT is absorbed: delivering it twice is the same as once. */
  lemma InsertIdempotent(s: seq<Bookmark>, rec: Bookmark)
    ensures Apply(Apply(s, Inserted(rec)), Inserted(rec)) == Apply(s, Inserted(rec))
  {
    assert HasId(Apply(s, Inserted(rec)), rec.id);
  }

  // ---------------------------------------------------------------------------
  // DELETE

  /** DELETE keeps every other entry exactly as often as it was there. */
  lemma {:induction false} RemoveKeepsOthers(s: seq<Bookmark>, id: Id, b: Bookmark)
    requires b.id != id
    ensures multiset(Remove(s, id))[b] == multiset(s)[b]
  {
    if s != [] {
      assert s == [s[0]] + s[1..];
      assert multiset(s) == multiset{s[0]} + multiset(s[1..]);
      RemoveKeepsOthers(s[1..], id, b);
      if s[0].id != id {
        assert Remove(s, id) == [s[0]] + Remove(s[1..], id);
        assert multiset(Remove(s, id)) == multiset{s[0]} + multiset(Remove(s[1..], id));
      }
    }
  }

  /** DELETE keeps the survivors in their original relative order. */
  lemma {:induction false} RemoveIsSubsequence(s: seq<Bookmark>, id: Id)
    ensures IsSubsequence(Remove(s, id), s)
  {
    if s != [] {
      RemoveIsSubsequence(s[1..], id);
      var r := Remove(s, id);
      if s[0].id != id {
        assert r[0] == s[0] && r[1..] == Remove(s[1..], id);
      } else if r != [] {
        assert r[0] in r;
      }
    }
  }

  /** Deleting an id that is not in the list changes nothing. */
  lemma {:induction false} RemoveAbsent(s: seq<Bookmark>, id: Id)
    requires !HasId(s, id)
    ensures Remove(s, id) == s
  {
    if s != [] {
      assert s[0].id != id;
      assert !HasId(s[1..], id) by {
        forall i | 0 <= i < |s[1..]| ensures s[1..][i].id != id {
          assert s[1..][i] == s[i + 1];
        }
      }
      RemoveAbsent(s[1..], id);
    }
  }

  /** With unique ids, DELETE of a present id cuts out exactly the one entry carrying it. */
  lemma {:induction false} RemoveUniquePresent(s: seq<Bookmark>, k: nat)
    requires UniqueIds(s) && k < |s|
    ensures Remove(s, s[k].id) == s[..k] + s[k + 1..]
  {
    var id := s[k].id;
    assert s == [s[0]] + s[1..];
    UniqueCons(s[0], s[1..]);
    if k == 0 {
      RemoveAbsent(s[1..], id);
      assert s[..0] + s[1..] == s[1..];
    } else {
      assert s[0].id != id;
      assert s[1..][k - 1] == s[k];
      RemoveUniquePresent(s[1..], k - 1);
      assert s[..k] + s[k + 1..] == [s[0]] + (s[1..][..k - 1] + s[1..][k..]);
    }
  }

  // ---------------------------------------------------------------------------
  // UPDATE

  /** Updating an id that is not in the list changes nothing. */
  lemma UpdateAbsent(s: seq<Bookmark>, rec: Bookmark)
    requires !HasId(s, rec.id)
    ensures Apply(s, Updated(rec)) == s
  {
    var r := Apply(s, Updated(rec));
    forall i | 0 <= i < |s| ensures r[i] == s[i] {
      assert s[i].id != rec.id;
    }
  }

  // ---------------------------------------------------------------------------
  // The uniqueness invariant

  lemma UniqueCons(x: Bookmark, t: seq<Bookmark>)
    ensures UniqueIds([x] + t) <==> !HasId(t, x.id) && UniqueIds(t)
  {
    var s := [x] + t;
    if !HasId(t, x.id) && UniqueIds(t) {
      forall i, j | 0 <= i < j < |s| ensures s[i].id != s[j].id {
        assert s[j] == t[j - 1];
        if i > 0 { assert s[i] == t[i - 1]; }
      }
    }
    if UniqueIds(s) {
      forall i | 0 <= i < |t| ensures t[i].id != x.id {
        assert s[0] == x && s[i + 1] == t[i];
      }
      forall i, j | 0 <= i < j < |t| ensures t[i].id != t[j].id {
        assert s[i + 1] == t[i] && s[j + 1] == t[j];
      }
    }
  }

  lemma {:induction false} RemovePreservesUnique(s: seq<Bookmark>, id: Id)
    requires UniqueIds(s)
    ensures UniqueIds(Remove(s, id))
  {
    if s != [] {
      UniqueCons(s[0], s[1..]);
      assert s == [s[0]] + s[1..];
      RemovePreservesUnique(s[1..], id);
      if s[0].id != id {
        var t := Remove(s[1..], id);
        forall i | 0 <= i < |t| ensures t[i].id != s[0].id {
          assert t[i] in s[1..];
        }
        UniqueCons(s[0], t);
      }
    }
  }

  lemma ReplacePreservesUnique(s: seq<Bookmark>, rec: Bookmark)
    requires UniqueIds(s)
    ensures UniqueIds(Replace(s, rec))
  {
    var r := Replace(s, rec);
    forall i | 0 <= i < |s| ensures r[i].id == s[i].id {
    }
  }

  /** Every event keeps the ids of the list unique. */
  lemma ApplyPreservesUnique(s: seq<Bookmark>, e: Event)
    requires UniqueIds(s)
    ensures UniqueIds(Apply(s, e))
  {
    match e
    case Inserted(rec) =>
      if !HasId(s, rec.id) { UniqueCons(rec, s); }
    case Deleted(id) => RemovePreservesUnique(s, id);
    case Updated(rec) => ReplacePreservesUnique(s, rec);
  }

  /** Any stream of events keeps the ids of the list unique. */
  lemma {:induction false} ApplyAllPreservesUnique(s: seq<Bookmark>, es: seq<Event>)
    requires UniqueIds(s)
    ensures UniqueIds(ApplyAll(s, es))
    decreases |es|
  {
    if es != [] {
      ApplyPreservesUnique(s, es[0]);
      ApplyAllPreservesUnique(Apply(s, es[0]), es[1..]);
    }
  }

  // ---------------------------------------------------------------------------
  // Order

  /**
   * A DELETE followed by an INSERT never reorders the old entries: the result
   * is the survivors of the DELETE, in their old order, with at most the new
   * record in front.
   */
  lemma DeleteThenInsertKeepsOrder(s: seq<Bookmark>, id: Id, rec: Bookmark)
    ensures var r := Apply(Apply(s, Deleted(id)), Inserted(rec));
      r == Remove(s, id) || r == [rec] + Remove(s, id)
    ensures IsSubsequence(Remove(s, id), s)
  {
    RemoveIsSubsequence(s, id);
  }

  /**
   * The scenario of a snapshot holding record 1, an INSERT of record 2, a
   * DELETE of record 1 and a duplicate INSERT of record 2 arriving late.
   */
  lemma SnapshotInsertDeleteDuplicate(b1: Bookmark, b2: Bookmark)
    requires b1.id == "1" && b2.id == "2"
    ensures ApplyAll([b1], [Inserted(b2)]) == [b2, b1]
    ensures ApplyAll([b1], [Inserted(b2), Deleted("1")]) == [b2]
    ensures ApplyAll([b1], [Inserted(b2), Deleted("1"), Inserted(b2)]) == [b2]
  {
    var es := [Inserted(b2), Deleted("1"), Inserted(b2)];
    assert !HasId([b1], b2.id);
    var s1 := Apply([b1], es[0]);
    assert s1 == [b2, b1];
    var s2 := Apply(s1, es[1]);
    assert [b2, b1][1..] == [b1] && [b1][1..] == [];
    assert Remove([b1], "1") == [];
    assert s2 == [b2];
    assert HasId(s2, b2.id);
    assert ApplyAll(s2, es[2..]) == [b2];
    assert es[1..][1..] == es[2..];
    assert [Inserted(b2), Deleted("1")][1..] == [Deleted("1")];
  }
}
