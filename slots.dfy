/**
 * The astro page's map of staged files, `Map<string, ImageItem>` keyed
 * `"<id>::<n>"`, and the three ways the page edits it
 * (`src/app/projects/astro/page.tsx`): staging the file items of an upload,
 * dropping every slot of a picture, and the two-phase re-index that follows
 * the deletion of one image of a picture.
 */
module Slots {
  import opened Wrappers
  import Js
  import JsMap
  import opened Astro

  // ---------------------------------------------------------------------------
  // Slot keys and the shape the upload handler leaves the map in
  // ---------------------------------------------------------------------------

  /** The position of the first `:` of `s`, or `|s|` when it has none. */
  function FirstColon(s: string): (i: nat)
    ensures i <= |s|
    decreases |s|
  {
    if s == [] || s[0] == ':' then 0 else 1 + FirstColon(s[1..])
  }

  lemma {:induction false} FirstColonAfter(u: string, w: string)
    requires PlainId(u)
    ensures FirstColon(u + [':'] + w) == |u|
    decreases |u|
  {
    if u != [] {
      assert (u + [':'] + w)[1..] == u[1..] + [':'] + w;
      FirstColonAfter(u[1..], w);
    }
  }

  /** The picture id of a key: its text before the first `:`. */
  function SlotId(k: string): string
  {
    k[..FirstColon(k)]
  }

  /** The index of a slot key: the numeral after `"<id>::"` (0 for keys that are not slot keys). */
  function SlotIndex(k: string): nat
  {
    var start := if FirstColon(k) + 2 <= |k| then FirstColon(k) + 2 else |k|;
    if Js.AllDigits(k[start..]) then Js.DigitsValue(k[start..]) else 0
  }

  /** A key as the upload handler writes it: `"${id}::${n}"`, colon-free id, `n.toString()`. */
  predicate IsSlotKey(k: string)
  {
    PlainId(SlotId(k)) && k == SlotKey(SlotId(k), SlotIndex(k))
  }

  lemma SlotKeyIs(id: string, n: nat)
    requires PlainId(id)
    ensures IsSlotKey(SlotKey(id, n)) && SlotId(SlotKey(id, n)) == id && SlotIndex(SlotKey(id, n)) == n
  {
    var k := SlotKey(id, n);
    assert k == id + [':'] + (":" + Js.NatToString(n));
    FirstColonAfter(id, ":" + Js.NatToString(n));
    assert k[..|id|] == id;
    assert k[|id| + 2..] == Js.NatToString(n);
    Js.NatToStringValue(n);
  }

  /** The page reads a slot key's index back with `Number(key.split('::')[1])`. */
  lemma SlotKeyNumber(k: string)
    requires IsSlotKey(k)
    ensures SlotNumber(k) == Some(SlotIndex(k) as int)
  {
    SlotKeyParts(SlotId(k), SlotIndex(k));
  }

  /** Two slots of one picture are equal only at equal indices. */
  lemma SlotKeyIndexInjective(id: string, a: nat, b: nat)
    ensures SlotKey(id, a) == SlotKey(id, b) ==> a == b
  {
    var p := SlotPrefix(id);
    assert SlotKey(id, a)[|p|..] == Js.NatToString(a);
    assert SlotKey(id, b)[|p|..] == Js.NatToString(b);
    if Js.NatToString(a) == Js.NatToString(b) {
      Js.NatToStringInjective(a, b);
    }
  }

  /** On a slot key, `key.startsWith(`${pid}::`)` holds iff the key is a slot of `pid`. */
  lemma PrefixMeansId(pid: string, k: string)
    requires PlainId(pid) && IsSlotKey(k)
    ensures Js.StartsWith(k, SlotPrefix(pid)) <==> SlotId(k) == pid
  {
    var a := SlotId(k);
    var p := SlotPrefix(pid);
    SlotKeyStartsWithPrefix(a, SlotIndex(k));
    if Js.StartsWith(k, p) {
      assert k == a + [':'] + (":" + Js.NatToString(SlotIndex(k)));
      assert k == pid + [':'] + (":" + k[|p|..]);
      FirstColonAfter(a, ":" + Js.NatToString(SlotIndex(k)));
      FirstColonAfter(pid, ":" + k[|p|..]);
      assert k[..|a|] == a && k[..|pid|] == pid;
    }
  }

  /** Within one picture, an earlier slot has the smaller index. */
  predicate Before(k: string, k': string)
  {
    SlotId(k) == SlotId(k') ==> SlotIndex(k) < SlotIndex(k')
  }

  /**
   * The shape an upload leaves the map in: every key a slot key, and the
   * slots of each picture in ascending index order.
   */
  predicate WellKeyed(m: SlotMap)
  {
    AllSlotKeys(m) && (forall i, j | 0 <= i < j < |m| :: Before(m[i].0, m[j].0))
  }

  predicate AllSlotKeys(m: SlotMap)
  {
    forall i | 0 <= i < |m| :: IsSlotKey(m[i].0)
  }

  lemma WellKeyedDistinct(m: SlotMap)
    requires WellKeyed(m)
    ensures JsMap.DistinctKeys(m)
  {
  }

  /** Appending keeps the shape when each appended slot follows every slot of its picture. */
  lemma WellKeyedConcat(x: SlotMap, y: SlotMap)
    requires WellKeyed(x) && WellKeyed(y)
    requires forall e, e' | e in x && e' in y :: Before(e.0, e'.0)
    ensures WellKeyed(x + y)
  {
    var z := x + y;
    forall i, j | 0 <= i < j < |z| ensures Before(z[i].0, z[j].0) {
      if j < |x| {
        assert z[i] == x[i] && z[j] == x[j];
      } else if i >= |x| {
        assert z[i] == y[i - |x|] && z[j] == y[j - |x|];
      } else {
        assert z[i] in x && z[j] in y;
      }
    }
    forall i | 0 <= i < |z| ensures IsSlotKey(z[i].0) {
      if i < |x| {
        assert z[i] == x[i];
      } else {
        assert z[i] == y[i - |x|];
      }
    }
  }

  /** `delete` keeps the shape. */
  lemma {:induction false} WellKeyedDelete(m: SlotMap, k: string)
    requires WellKeyed(m)
    ensures WellKeyed(JsMap.Delete(m, k))
    decreases |m|
  {
    if m != [] {
      var t := m[1..];
      assert forall i | 0 <= i < |t| :: t[i] == m[i + 1];
      WellKeyedDelete(t, k);
      if m[0].0 != k {
        var d := JsMap.Delete(t, k);
        JsMap.DeleteMembers(t, k);
        forall e, e' | e in [m[0]] && e' in d ensures Before(e.0, e'.0) {
          var i :| 0 <= i < |t| && t[i] == e';
          assert m[i + 1] == e';
        }
        WellKeyedConcat([m[0]], d);
      }
    }
  }

  // ---------------------------------------------------------------------------
  // Staging an upload
  // ---------------------------------------------------------------------------

  /**
   * The map after `images.forEach((item, index) => ...)` has visited
   * `images`: each file item set under `"${id}::${index}"`, url items skipped.
   */
  function Staged(m: SlotMap, id: string, images: seq<ImageItem>): SlotMap
    decreases |images|
  {
    if images == [] then m
    else
      var last := |images| - 1;
      var prev := Staged(m, id, images[..last]);
      if images[last].FileItem? then JsMap.Set(prev, SlotKey(id, last), images[last]) else prev
  }

  /** Staging binds each file item's slot to the item and leaves every key outside the picture alone. */
  lemma {:induction false} StagedSpec(m: SlotMap, id: string, images: seq<ImageItem>)
    requires JsMap.DistinctKeys(m)
    ensures JsMap.DistinctKeys(Staged(m, id, images))
    ensures forall i | 0 <= i < |images| ::
      JsMap.Get(Staged(m, id, images), SlotKey(id, i)) ==
        if images[i].FileItem? then Some(images[i]) else JsMap.Get(m, SlotKey(id, i))
    ensures forall k | !Js.StartsWith(k, SlotPrefix(id)) :: JsMap.Get(Staged(m, id, images), k) == JsMap.Get(m, k)
    ensures forall n: nat | n >= |images| :: JsMap.Get(Staged(m, id, images), SlotKey(id, n)) == JsMap.Get(m, SlotKey(id, n))
    decreases |images|
  {
    if images != [] {
      var last := |images| - 1;
      var init := images[..last];
      StagedSpec(m, id, init);
      StagedStep(m, id, images);
      var r := Staged(m, id, images);
      forall i | 0 <= i < last
        ensures JsMap.Get(r, SlotKey(id, i)) == if images[i].FileItem? then Some(images[i]) else JsMap.Get(m, SlotKey(id, i))
      {
        assert init[i] == images[i];
      }
      forall n: nat | n >= |images| ensures JsMap.Get(r, SlotKey(id, n)) == JsMap.Get(m, SlotKey(id, n)) {
        SlotKeyIndexInjective(id, n, last);
      }
    }
  }

  /** The last item of an upload only touches its own slot. */
  lemma StagedStep(m: SlotMap, id: string, images: seq<ImageItem>)
    requires images != [] && JsMap.DistinctKeys(Staged(m, id, images[..|images| - 1]))
    ensures JsMap.DistinctKeys(Staged(m, id, images))
    ensures var last := |images| - 1;
      JsMap.Get(Staged(m, id, images), SlotKey(id, last)) ==
        if images[last].FileItem? then Some(images[last]) else JsMap.Get(Staged(m, id, images[..last]), SlotKey(id, last))
    ensures forall k | k != SlotKey(id, |images| - 1) ::
      JsMap.Get(Staged(m, id, images), k) == JsMap.Get(Staged(m, id, images[..|images| - 1]), k)
    ensures forall i | 0 <= i < |images| - 1 :: SlotKey(id, i) != SlotKey(id, |images| - 1) && images[..|images| - 1][i] == images[i]
    ensures Js.StartsWith(SlotKey(id, |images| - 1), SlotPrefix(id))
  {
    var last := |images| - 1;
    var prev := Staged(m, id, images[..last]);
    forall i | 0 <= i < last ensures SlotKey(id, i) != SlotKey(id, last) {
      SlotKeyIndexInjective(id, i, last);
    }
    SlotKeyStartsWithPrefix(id, last);
    if images[last].FileItem? {
      JsMap.SetSpec(prev, SlotKey(id, last), images[last]);
    }
  }

  /** No key of the map is a slot of `id`. */
  predicate NoSlotsOf(m: SlotMap, id: string)
  {
    forall i | 0 <= i < |m| :: !Js.StartsWith(m[i].0, SlotPrefix(id))
  }

  /**
   * Staging under a new id keeps the shape: its slots are appended in index
   * order, after everything already staged.
   */
  lemma {:induction false} StagedFresh(m: SlotMap, id: string, images: seq<ImageItem>)
    requires WellKeyed(m) && PlainId(id) && NoSlotsOf(m, id)
    ensures WellKeyed(Staged(m, id, images))
    ensures forall j | 0 <= j < |Staged(m, id, images)| && Js.StartsWith(Staged(m, id, images)[j].0, SlotPrefix(id)) ::
      SlotIndex(Staged(m, id, images)[j].0) < |images|
    decreases |images|
  {
    if images != [] {
      var last := |images| - 1;
      StagedFresh(m, id, images[..last]);
      var prev := Staged(m, id, images[..last]);
      if images[last].FileItem? {
        var k := SlotKey(id, last);
        SlotKeyIs(id, last);
        SlotKeyStartsWithPrefix(id, last);
        assert !JsMap.HasKey(prev, k);
        JsMap.SetAbsent(prev, k, images[last]);
        forall e, e' | e in prev && e' in [(k, images[last])] ensures Before(e.0, e'.0) {
          var i :| 0 <= i < |prev| && prev[i] == e;
          PrefixMeansId(id, e.0);
        }
        WellKeyedConcat(prev, [(k, images[last])]);
      }
    }
  }

  // ---------------------------------------------------------------------------
  // Dropping every slot of a picture
  // ---------------------------------------------------------------------------

  /**
   * The map after `for (const key of next.keys()) if (key.startsWith(prefix))
   * next.delete(key)` has visited `keys`. Deleting the key being visited does
   * not disturb a JavaScript `Map` iteration, so the walk visits the keys the
   * map had when it started.
   */
  function WithoutPrefixed(m: SlotMap, keys: seq<string>, prefix: string): SlotMap
    decreases |keys|
  {
    if keys == [] then m
    else
      var last := |keys| - 1;
      var prev := WithoutPrefixed(m, keys[..last], prefix);
      if Js.StartsWith(keys[last], prefix) then JsMap.Delete(prev, keys[last]) else prev
  }

  lemma {:induction false} WithoutPrefixedGet(m: SlotMap, keys: seq<string>, prefix: string)
    ensures forall k :: JsMap.Get(WithoutPrefixed(m, keys, prefix), k) ==
                          if Js.StartsWith(k, prefix) && k in keys then None else JsMap.Get(m, k)
    ensures WellKeyed(m) ==> WellKeyed(WithoutPrefixed(m, keys, prefix))
    decreases |keys|
  {
    if keys != [] {
      var last := |keys| - 1;
      var init := keys[..last];
      WithoutPrefixedGet(m, init, prefix);
      var prev := WithoutPrefixed(m, init, prefix);
      assert forall k :: k in keys <==> k in init || k == keys[last];
      if Js.StartsWith(keys[last], prefix) {
        JsMap.DeleteSpec(prev, keys[last]);
        if WellKeyed(m) {
          WellKeyedDelete(prev, keys[last]);
        }
      }
    }
  }

  /** The map without the slots of one picture. */
  function RemoveSlots(m: SlotMap, id: string): SlotMap
  {
    WithoutPrefixed(m, JsMap.Keys(m), SlotPrefix(id))
  }

  /** Dropping a picture's slots unbinds exactly the keys under its prefix and keeps the shape. */
  lemma RemoveSlotsSpec(m: SlotMap, id: string)
    ensures forall k :: JsMap.Get(RemoveSlots(m, id), k) ==
                          if Js.StartsWith(k, SlotPrefix(id)) then None else JsMap.Get(m, k)
    ensures WellKeyed(m) ==> WellKeyed(RemoveSlots(m, id))
  {
    var keys := JsMap.Keys(m);
    WithoutPrefixedGet(m, keys, SlotPrefix(id));
    forall k | JsMap.HasKey(m, k) ensures k in keys {
      var i :| 0 <= i < |m| && m[i].0 == k;
      assert keys[i] == k;
    }
  }

  // ---------------------------------------------------------------------------
  // Re-indexing after one image of a picture is deleted
  // ---------------------------------------------------------------------------

  /** What phase one collects for one key: `[oldKey, newKey]` when it is a slot of `pid` above `n`. */
  function RenameOf(key: string, pid: string, n: nat): seq<(string, string)>
  {
    if Js.StartsWith(key, SlotPrefix(pid)) then
      match SlotNumber(key)
      case Some(a) => if a > n then [(key, SlotKey(pid, a - 1))] else []
      case None => []
    else []
  }

  /** `keysToUpdate` once phase one has visited `keys`. */
  function Renames(keys: seq<string>, pid: string, n: nat): seq<(string, string)>
    decreases |keys|
  {
    if keys == [] then [] else Renames(keys[..|keys| - 1], pid, n) + RenameOf(keys[|keys| - 1], pid, n)
  }

  /** Phase two for one pair: when `oldKey` is bound, bind its value to `newKey` and delete `oldKey`. */
  function ApplyRename(m: SlotMap, p: (string, string)): SlotMap
  {
    match JsMap.Get(m, p.0)
    case Some(v) => JsMap.Delete(JsMap.Set(m, p.1, v), p.0)
    case None => m
  }

  /** The map once phase two has applied the pairs `ps`, in order. */
  function ApplyRenames(m: SlotMap, ps: seq<(string, string)>): SlotMap
    decreases |ps|
  {
    if ps == [] then m else ApplyRename(ApplyRenames(m, ps[..|ps| - 1]), ps[|ps| - 1])
  }

  /** The slot map after `handleDeleteSingleImage(pid, n)`: delete slot `n`, collect, rename. */
  function Reindexed(m: SlotMap, pid: string, n: nat): SlotMap
  {
    var d := JsMap.Delete(m, SlotKey(pid, n));
    ApplyRenames(d, Renames(JsMap.Keys(d), pid, n))
  }

  /** Every pair of the plan renames a present slot of `pid` above `n` to the slot one lower. */
  ghost predicate PlanEntries(d: SlotMap, pid: string, n: nat, ps: seq<(string, string)>)
  {
    forall s | 0 <= s < |ps| ::
      JsMap.HasKey(d, ps[s].0) && SlotId(ps[s].0) == pid && SlotIndex(ps[s].0) > n &&
      ps[s].1 == SlotKey(pid, SlotIndex(ps[s].0) - 1)
  }

  /** The plan visits the old slots in ascending index order. */
  ghost predicate PlanAscending(ps: seq<(string, string)>)
  {
    forall s, s' | 0 <= s < s' < |ps| :: SlotIndex(ps[s].0) < SlotIndex(ps[s'].0)
  }

  /** Every slot of `pid` above `n` is renamed by the plan. */
  ghost predicate PlanComplete(d: SlotMap, pid: string, n: nat, ps: seq<(string, string)>)
  {
    forall i | 0 <= i < |d| && SlotId(d[i].0) == pid && SlotIndex(d[i].0) > n ::
      (d[i].0, SlotKey(pid, SlotIndex(d[i].0) - 1)) in ps
  }

  /**
   * What phase one collects from a well-keyed map: the slots of `pid` above
   * `n`, in ascending index order, each paired with the slot one lower.
   */
  ghost predicate RenamePlan(d: SlotMap, pid: string, n: nat, ps: seq<(string, string)>)
  {
    PlanEntries(d, pid, n, ps) && PlanAscending(ps) && PlanComplete(d, pid, n, ps)
  }

  /** `RenameOf` on a slot key, read through the key's id and index. */
  function PlannedRename(key: string, pid: string, n: nat): seq<(string, string)>
  {
    if SlotId(key) == pid && SlotIndex(key) > n then [(key, SlotKey(pid, SlotIndex(key) - 1))] else []
  }

  /** Phase one over a map is phase one over all but its last key, then the last key. */
  lemma RenamesSnoc(d: SlotMap, pid: string, n: nat)
    requires d != [] && WellKeyed(d) && PlainId(pid)
    ensures Renames(JsMap.Keys(d), pid, n) ==
              Renames(JsMap.Keys(d[..|d| - 1]), pid, n) + PlannedRename(d[|d| - 1].0, pid, n)
    ensures WellKeyed(d[..|d| - 1]) && forall i | 0 <= i < |d| - 1 :: d[..|d| - 1][i] == d[i]
  {
    var last := |d| - 1;
    assert JsMap.Keys(d)[..last] == JsMap.Keys(d[..last]);
    RenameOfSlot(d[last].0, pid, n);
    WellKeyedPrefix(d, last);
  }

  lemma RenameOfSlot(key: string, pid: string, n: nat)
    requires IsSlotKey(key) && PlainId(pid)
    ensures RenameOf(key, pid, n) == PlannedRename(key, pid, n)
  {
    PrefixMeansId(pid, key);
    SlotKeyNumber(key);
  }

  lemma WellKeyedPrefix(d: SlotMap, j: nat)
    requires WellKeyed(d) && j <= |d|
    ensures WellKeyed(d[..j]) && forall i | 0 <= i < j :: d[..j][i] == d[i]
  {
    assert forall i | 0 <= i < j :: d[..j][i] == d[i];
  }

  lemma EntriesSnoc(d: SlotMap, pid: string, n: nat, ps0: seq<(string, string)>)
    requires d != [] && PlanEntries(d[..|d| - 1], pid, n, ps0)
    ensures PlanEntries(d, pid, n, ps0 + PlannedRename(d[|d| - 1].0, pid, n))
  {
    var last := |d| - 1;
    var init := d[..last];
    var ps := ps0 + PlannedRename(d[last].0, pid, n);
    forall s | 0 <= s < |ps| ensures JsMap.HasKey(d, ps[s].0) {
      if s < |ps0| {
        var i :| 0 <= i < |init| && init[i].0 == ps0[s].0;
        assert d[i].0 == ps[s].0;
      } else {
        assert d[last].0 == ps[s].0;
      }
    }
  }

  lemma AscendingSnoc(d: SlotMap, pid: string, n: nat, ps0: seq<(string, string)>)
    requires d != [] && WellKeyed(d)
    requires PlanEntries(d[..|d| - 1], pid, n, ps0) && PlanAscending(ps0)
    ensures PlanAscending(ps0 + PlannedRename(d[|d| - 1].0, pid, n))
  {
    var last := |d| - 1;
    var init := d[..last];
    var ps := ps0 + PlannedRename(d[last].0, pid, n);
    if |ps| > |ps0| {
      forall s | 0 <= s < |ps0| ensures SlotIndex(ps[s].0) < SlotIndex(ps[|ps0|].0) {
        var i :| 0 <= i < |init| && init[i].0 == ps0[s].0;
        assert Before(d[i].0, d[last].0);
      }
    }
  }

  lemma CompleteSnoc(d: SlotMap, pid: string, n: nat, ps0: seq<(string, string)>)
    requires d != [] && PlanComplete(d[..|d| - 1], pid, n, ps0)
    ensures PlanComplete(d, pid, n, ps0 + PlannedRename(d[|d| - 1].0, pid, n))
  {
    var last := |d| - 1;
    var init := d[..last];
    var ps := ps0 + PlannedRename(d[last].0, pid, n);
    forall i | 0 <= i < |d| && SlotId(d[i].0) == pid && SlotIndex(d[i].0) > n
      ensures (d[i].0, SlotKey(pid, SlotIndex(d[i].0) - 1)) in ps
    {
      if i < last {
        assert init[i] == d[i];
      }
    }
  }

  lemma {:induction false} RenamesEntries(d: SlotMap, pid: string, n: nat)
    requires WellKeyed(d) && PlainId(pid)
    ensures PlanEntries(d, pid, n, Renames(JsMap.Keys(d), pid, n))
    ensures PlanAscending(Renames(JsMap.Keys(d), pid, n))
    ensures PlanComplete(d, pid, n, Renames(JsMap.Keys(d), pid, n))
    decreases |d|
  {
    if d != [] {
      var init := d[..|d| - 1];
      RenamesSnoc(d, pid, n);
      RenamesEntries(init, pid, n);
      var ps0 := Renames(JsMap.Keys(init), pid, n);
      EntriesSnoc(d, pid, n, ps0);
      AscendingSnoc(d, pid, n, ps0);
      CompleteSnoc(d, pid, n, ps0);
    }
  }

  /** Phase one over a well-keyed map collects exactly its rename plan. */
  lemma RenamesPlan(d: SlotMap, pid: string, n: nat)
    requires WellKeyed(d) && PlainId(pid)
    ensures RenamePlan(d, pid, n, Renames(JsMap.Keys(d), pid, n))
  {
    RenamesEntries(d, pid, n);
  }

  // Phase two, step by step

  /** The entries of `d` that survive phase two: those whose key is not renamed away. */
  function Survivors(d: SlotMap, ps: seq<(string, string)>): SlotMap
    decreases |ps|
  {
    if ps == [] then d else JsMap.Delete(Survivors(d, ps[..|ps| - 1]), ps[|ps| - 1].0)
  }

  /** The entries phase two appends: each renamed value under its new key, in plan order. */
  function Moved(d: SlotMap, ps: seq<(string, string)>): SlotMap
    decreases |ps|
  {
    if ps == [] then []
    else
      var p := ps[|ps| - 1];
      Moved(d, ps[..|ps| - 1]) + match JsMap.Get(d, p.0) case Some(v) => [(p.1, v)] case None => []
  }

  /** The keys a plan renames away. */
  function Olds(ps: seq<(string, string)>): set<string>
  {
    set p | p in ps :: p.0
  }

  lemma {:induction false} SurvivorsSpec(d: SlotMap, ps: seq<(string, string)>)
    ensures forall k :: JsMap.Get(Survivors(d, ps), k) == if k in Olds(ps) then None else JsMap.Get(d, k)
    ensures forall e | e in Survivors(d, ps) :: e in d && e.0 !in Olds(ps)
    ensures WellKeyed(d) ==> WellKeyed(Survivors(d, ps))
    decreases |ps|
  {
    if ps != [] {
      var init := ps[..|ps| - 1];
      var k0 := ps[|ps| - 1].0;
      SurvivorsSpec(d, init);
      var prev := Survivors(d, init);
      assert Survivors(d, ps) == JsMap.Delete(prev, k0);
      assert Olds(ps) == Olds(init) + {k0} by {
        assert forall p | p in ps :: p in init || p == ps[|ps| - 1];
        assert forall p | p in init :: p in ps;
      }
      JsMap.DeleteSpec(prev, k0);
      if WellKeyed(d) {
        WellKeyedDelete(prev, k0);
      }
    }
  }

  /** When every renamed key is bound, phase two appends exactly one entry per pair. */
  lemma {:induction false} MovedExact(d: SlotMap, ps: seq<(string, string)>)
    requires forall s | 0 <= s < |ps| :: JsMap.HasKey(d, ps[s].0)
    ensures |Moved(d, ps)| == |ps|
    ensures forall s | 0 <= s < |ps| :: Moved(d, ps)[s] == (ps[s].1, JsMap.Get(d, ps[s].0).value)
    decreases |ps|
  {
    if ps != [] {
      var init := ps[..|ps| - 1];
      var p := ps[|ps| - 1];
      assert forall s | 0 <= s < |init| :: init[s] == ps[s];
      MovedExact(d, init);
      var v := JsMap.Get(d, p.0).value;
      assert Moved(d, ps) == Moved(d, init) + [(p.1, v)];
    }
  }

  /** The keys of a well-keyed map are its slot keys, written out. */
  lemma KeyOf(d: SlotMap, k: string)
    requires AllSlotKeys(d) && JsMap.HasKey(d, k)
    ensures IsSlotKey(k) && k == SlotKey(SlotId(k), SlotIndex(k))
  {
    var i :| 0 <= i < |d| && d[i].0 == k;
  }

  /** A pair renaming a slot below the current one comes earlier, so its old key is already gone. */
  lemma PlanEarlier(ps: seq<(string, string)>, t: nat, s: nat)
    requires PlanAscending(ps) && s < |ps| && 0 < t <= |ps|
    requires SlotIndex(ps[s].0) < SlotIndex(ps[t - 1].0)
    ensures s < t - 1 && ps[s].0 in Olds(ps[..t - 1])
  {
    assert ps[..t - 1][s] == ps[s];
  }

  /** The target of the current pair is free: neither a surviving key nor an appended one. */
  lemma FreshTarget(d: SlotMap, pid: string, n: nat, ps: seq<(string, string)>, t: nat)
    requires PlainId(pid) && !JsMap.HasKey(d, SlotKey(pid, n))
    requires RenamePlan(d, pid, n, ps) && 0 < t <= |ps|
    ensures JsMap.Get(Survivors(d, ps[..t - 1]), ps[t - 1].1) == None
    ensures JsMap.Get(Survivors(d, ps[..t - 1]), ps[t - 1].0) == JsMap.Get(d, ps[t - 1].0)
    ensures JsMap.Get(d, ps[t - 1].0).Some?
  {
    var q0 := ps[..t - 1];
    var p := ps[t - 1];
    PlanEntriesAt(d, pid, n, ps, t - 1);
    SurvivorsSpec(d, q0);
    TargetAlreadyRenamed(d, pid, n, ps, t);
    forall p' | p' in q0 ensures p'.0 != p.0 {
      var s :| 0 <= s < |q0| && q0[s] == p';
      assert ps[s] == p';
    }
  }

  /** A target that is bound in `d` was renamed away by an earlier pair of the plan. */
  lemma TargetAlreadyRenamed(d: SlotMap, pid: string, n: nat, ps: seq<(string, string)>, t: nat)
    requires PlainId(pid) && !JsMap.HasKey(d, SlotKey(pid, n))
    requires PlanEntries(d, pid, n, ps) && PlanAscending(ps) && PlanComplete(d, pid, n, ps)
    requires 0 < t <= |ps|
    ensures JsMap.HasKey(d, ps[t - 1].1) ==> ps[t - 1].1 in Olds(ps[..t - 1])
  {
    var p := ps[t - 1];
    var a := SlotIndex(p.0);
    PlanEntriesAt(d, pid, n, ps, t - 1);
    if JsMap.HasKey(d, p.1) {
      var j :| 0 <= j < |d| && d[j].0 == p.1;
      assert a - 1 != n;
      TargetRenamed(d, pid, n, ps, j, a);
      var s :| 0 <= s < |ps| && ps[s] == (p.1, SlotKey(pid, a - 2));
      SlotKeyIs(pid, a - 1);
      PlanEarlier(ps, t, s);
    }
  }

  lemma PlanEntriesAt(d: SlotMap, pid: string, n: nat, ps: seq<(string, string)>, s: nat)
    requires PlanEntries(d, pid, n, ps) && s < |ps|
    ensures JsMap.HasKey(d, ps[s].0) && SlotId(ps[s].0) == pid && SlotIndex(ps[s].0) > n
    ensures ps[s].1 == SlotKey(pid, SlotIndex(ps[s].0) - 1)
  {
  }

  /** A present slot one below a renamed one is itself renamed by the plan. */
  lemma TargetRenamed(d: SlotMap, pid: string, n: nat, ps: seq<(string, string)>, j: nat, a: nat)
    requires PlainId(pid) && PlanComplete(d, pid, n, ps)
    requires j < |d| && a >= 1 && d[j].0 == SlotKey(pid, a - 1) && a - 1 > n
    ensures (d[j].0, SlotKey(pid, a - 2)) in ps
  {
    SlotKeyIs(pid, a - 1);
  }

  /** Nothing appended so far is bound to either key of the current pair. */
  lemma MovedAvoids(d: SlotMap, pid: string, n: nat, ps: seq<(string, string)>, t: nat)
    requires AllSlotKeys(d) && PlainId(pid) && PlanEntries(d, pid, n, ps) && PlanAscending(ps) && 0 < t <= |ps|
    ensures !JsMap.HasKey(Moved(d, ps[..t - 1]), ps[t - 1].0)
    ensures !JsMap.HasKey(Moved(d, ps[..t - 1]), ps[t - 1].1)
    ensures ps[t - 1].0 != ps[t - 1].1
  {
    var q0 := ps[..t - 1];
    var p := ps[t - 1];
    var a := SlotIndex(p.0);
    assert forall s | 0 <= s < |q0| :: q0[s] == ps[s];
    MovedExact(d, q0);
    var y := Moved(d, q0);
    KeyOf(d, p.0);
    forall i | 0 <= i < |y| ensures y[i].0 != p.0 && y[i].0 != p.1 {
      var b := SlotIndex(ps[i].0);
      SlotKeyIndexInjective(pid, b - 1, a);
      SlotKeyIndexInjective(pid, b - 1, a - 1);
    }
    SlotKeyIndexInjective(pid, a, a - 1);
  }

  /** One pair of phase two: the current key is dropped and its value appended under the new key. */
  lemma RenameStep(d: SlotMap, pid: string, n: nat, ps: seq<(string, string)>, t: nat)
    requires AllSlotKeys(d) && PlainId(pid) && !JsMap.HasKey(d, SlotKey(pid, n))
    requires RenamePlan(d, pid, n, ps) && 0 < t <= |ps|
    ensures var x := Survivors(d, ps[..t - 1]);
            var y := Moved(d, ps[..t - 1]);
            ApplyRename(x + y, ps[t - 1]) == Survivors(d, ps[..t]) + Moved(d, ps[..t])
  {
    var q0 := ps[..t - 1];
    var p := ps[t - 1];
    assert ps[..t] == q0 + [p];
    FreshTarget(d, pid, n, ps, t);
    MovedAvoids(d, pid, n, ps, t);
    MoveStep(d, q0, p);
  }

  /** One pair applied to survivors-then-moved, when its old key survives and both keys are free elsewhere. */
  lemma MoveStep(d: SlotMap, q0: seq<(string, string)>, p: (string, string))
    requires JsMap.Get(d, p.0).Some?
    requires JsMap.Get(Survivors(d, q0), p.0) == JsMap.Get(d, p.0)
    requires JsMap.Get(Survivors(d, q0), p.1) == None
    requires !JsMap.HasKey(Moved(d, q0), p.0) && !JsMap.HasKey(Moved(d, q0), p.1)
    ensures ApplyRename(Survivors(d, q0) + Moved(d, q0), p) == Survivors(d, q0 + [p]) + Moved(d, q0 + [p])
  {
    var ps := q0 + [p];
    assert ps[..|ps| - 1] == q0 && ps[|ps| - 1] == p;
    var v := JsMap.Get(d, p.0).value;
    JsMap.MoveToEnd(Survivors(d, q0), Moved(d, q0), p.0, p.1, v);
  }

  /** Phase two so far: the survivors, then the moved entries. */
  lemma {:induction false} ApplyPlan(d: SlotMap, pid: string, n: nat, ps: seq<(string, string)>, t: nat)
    requires AllSlotKeys(d) && PlainId(pid) && !JsMap.HasKey(d, SlotKey(pid, n))
    requires RenamePlan(d, pid, n, ps) && t <= |ps|
    ensures ApplyRenames(d, ps[..t]) == Survivors(d, ps[..t]) + Moved(d, ps[..t])
  {
    if t == 0 {
      assert ps[..0] == [];
    } else {
      ApplyPlan(d, pid, n, ps, t - 1);
      assert ps[..t][..t - 1] == ps[..t - 1];
      RenameStep(d, pid, n, ps, t);
    }
  }

  /** The moved entries are slots of `pid` from `n` up, in ascending order. */
  lemma MovedShape(d: SlotMap, pid: string, n: nat, ps: seq<(string, string)>)
    requires PlainId(pid) && PlanEntries(d, pid, n, ps) && PlanAscending(ps)
    ensures |Moved(d, ps)| == |ps|
    ensures forall s | 0 <= s < |ps| :: Moved(d, ps)[s].0 == ps[s].1
    ensures forall e | e in Moved(d, ps) :: SlotId(e.0) == pid && SlotIndex(e.0) >= n
    ensures WellKeyed(Moved(d, ps))
  {
    MovedExact(d, ps);
    var y := Moved(d, ps);
    forall s | 0 <= s < |y|
      ensures IsSlotKey(y[s].0) && SlotId(y[s].0) == pid
      ensures SlotIndex(y[s].0) == SlotIndex(ps[s].0) - 1 >= n
    {
      SlotKeyIs(pid, SlotIndex(ps[s].0) - 1);
    }
    forall e | e in y ensures SlotId(e.0) == pid && SlotIndex(e.0) >= n {
      var s :| 0 <= s < |y| && y[s] == e;
    }
  }

  /** After the plan, slot `j >= n` of `pid` among the moved entries holds what slot `j + 1` held. */
  lemma MovedGet(d: SlotMap, pid: string, n: nat, ps: seq<(string, string)>, j: nat)
    requires AllSlotKeys(d) && PlainId(pid) && RenamePlan(d, pid, n, ps) && j >= n
    ensures JsMap.Get(Moved(d, ps), SlotKey(pid, j)) == JsMap.Get(d, SlotKey(pid, j + 1))
  {
    if JsMap.HasKey(d, SlotKey(pid, j + 1)) {
      MovedGetPresent(d, pid, n, ps, j);
    } else {
      MovedGetAbsent(d, pid, n, ps, j);
    }
  }

  lemma MovedGetPresent(d: SlotMap, pid: string, n: nat, ps: seq<(string, string)>, j: nat)
    requires PlainId(pid) && RenamePlan(d, pid, n, ps) && j >= n
    requires JsMap.HasKey(d, SlotKey(pid, j + 1))
    ensures JsMap.Get(Moved(d, ps), SlotKey(pid, j)) == JsMap.Get(d, SlotKey(pid, j + 1))
  {
    var k := SlotKey(pid, j);
    var k1 := SlotKey(pid, j + 1);
    var i :| 0 <= i < |d| && d[i].0 == k1;
    SlotKeyIs(pid, j + 1);
    assert (k1, k) in ps;
    var s :| 0 <= s < |ps| && ps[s] == (k1, k);
    MovedHit(d, pid, n, ps, s);
  }

  lemma MovedGetAbsent(d: SlotMap, pid: string, n: nat, ps: seq<(string, string)>, j: nat)
    requires AllSlotKeys(d) && PlainId(pid) && PlanEntries(d, pid, n, ps)
    requires !JsMap.HasKey(d, SlotKey(pid, j + 1))
    ensures JsMap.Get(Moved(d, ps), SlotKey(pid, j)) == None
  {
    var k := SlotKey(pid, j);
    forall s | 0 <= s < |ps| ensures JsMap.HasKey(d, ps[s].0) && ps[s].1 != k {
      KeyOf(d, ps[s].0);
      SlotKeyIndexInjective(pid, SlotIndex(ps[s].0) - 1, j);
    }
    MovedMiss(d, ps, k);
  }

  /** A renamed slot's new key finds the value its old key held. */
  lemma MovedHit(d: SlotMap, pid: string, n: nat, ps: seq<(string, string)>, s: nat)
    requires PlainId(pid) && PlanEntries(d, pid, n, ps) && PlanAscending(ps) && s < |ps|
    ensures JsMap.Get(Moved(d, ps), ps[s].1) == JsMap.Get(d, ps[s].0)
  {
    MovedShape(d, pid, n, ps);
    MovedExact(d, ps);
    WellKeyedDistinct(Moved(d, ps));
    JsMap.GetEntry(Moved(d, ps), s);
  }

  /** A key that is no pair's new key is not among the moved entries. */
  lemma MovedMiss(d: SlotMap, ps: seq<(string, string)>, k: string)
    requires forall s | 0 <= s < |ps| :: JsMap.HasKey(d, ps[s].0) && ps[s].1 != k
    ensures JsMap.Get(Moved(d, ps), k) == None
  {
    MovedExact(d, ps);
  }

  /** Every key the plan renames away is a slot of `pid` above `n`. */
  lemma OldsShape(d: SlotMap, pid: string, n: nat, ps: seq<(string, string)>)
    requires AllSlotKeys(d) && PlanEntries(d, pid, n, ps)
    ensures forall k | k in Olds(ps) :: Js.StartsWith(k, SlotPrefix(pid)) && SlotIndex(k) > n
  {
    forall k | k in Olds(ps) ensures Js.StartsWith(k, SlotPrefix(pid)) && SlotIndex(k) > n {
      var p :| p in ps && p.0 == k;
      var s :| 0 <= s < |ps| && ps[s] == p;
      KeyOf(d, k);
      SlotKeyStartsWithPrefix(pid, SlotIndex(k));
    }
  }

  /** Every present slot of `pid` above `n` is renamed away. */
  lemma CompleteOlds(d: SlotMap, pid: string, n: nat, ps: seq<(string, string)>)
    requires PlanComplete(d, pid, n, ps)
    ensures forall i | 0 <= i < |d| && SlotId(d[i].0) == pid && SlotIndex(d[i].0) > n :: d[i].0 in Olds(ps)
  {
    forall i | 0 <= i < |d| && SlotId(d[i].0) == pid && SlotIndex(d[i].0) > n ensures d[i].0 in Olds(ps) {
      assert (d[i].0, SlotKey(pid, SlotIndex(d[i].0) - 1)) in ps;
    }
  }

  /** A surviving slot of `pid` lies below `n`: the slots above were all renamed away. */
  lemma SurvivorsBelow(d: SlotMap, pid: string, n: nat, ps: seq<(string, string)>)
    requires AllSlotKeys(d) && !JsMap.HasKey(d, SlotKey(pid, n)) && PlanComplete(d, pid, n, ps)
    ensures forall e | e in Survivors(d, ps) :: SlotId(e.0) == pid ==> SlotIndex(e.0) < n
  {
    SurvivorsSpec(d, ps);
    CompleteOlds(d, pid, n, ps);
    forall e | e in Survivors(d, ps) && SlotId(e.0) == pid ensures SlotIndex(e.0) < n {
      var i :| 0 <= i < |d| && d[i] == e;
      KeyOf(d, e.0);
      assert e.0 !in Olds(ps);
      assert SlotIndex(d[i].0) != n;
    }
  }

  /** A key that is neither slot `n` nor renamed keeps its value among the survivors. */
  lemma SurvivorKept(m: SlotMap, pid: string, n: nat, ps: seq<(string, string)>, k: string)
    requires PlainId(pid) && AllSlotKeys(JsMap.Delete(m, SlotKey(pid, n))) && PlanEntries(JsMap.Delete(m, SlotKey(pid, n)), pid, n, ps)
    requires !Js.StartsWith(k, SlotPrefix(pid)) || SlotIndex(k) < n
    ensures JsMap.Get(Survivors(JsMap.Delete(m, SlotKey(pid, n)), ps), k) == JsMap.Get(m, k)
  {
    var d := JsMap.Delete(m, SlotKey(pid, n));
    SlotKeyIs(pid, n);
    SlotKeyStartsWithPrefix(pid, n);
    SurvivorsSpec(d, ps);
    OldsShape(d, pid, n, ps);
    JsMap.DeleteSpec(m, SlotKey(pid, n));
  }

  /** Slots of `pid` from `n` on are all gone from the survivors. */
  lemma SurvivorGone(d: SlotMap, pid: string, n: nat, ps: seq<(string, string)>, j: nat)
    requires PlainId(pid) && !JsMap.HasKey(d, SlotKey(pid, n)) && PlanComplete(d, pid, n, ps) && j >= n
    ensures JsMap.Get(Survivors(d, ps), SlotKey(pid, j)) == None
  {
    var k := SlotKey(pid, j);
    SurvivorsSpec(d, ps);
    CompleteOlds(d, pid, n, ps);
    SlotKeyIs(pid, j);
    if JsMap.HasKey(d, k) {
      var i :| 0 <= i < |d| && d[i].0 == k;
      assert j != n;
    }
  }

  /** No slot of `pid` below `n`, and no key of another picture, is among the moved entries. */
  lemma MovedNone(d: SlotMap, pid: string, n: nat, ps: seq<(string, string)>, k: string)
    requires PlainId(pid) && PlanEntries(d, pid, n, ps)
    requires !Js.StartsWith(k, SlotPrefix(pid)) || SlotIndex(k) < n
    ensures JsMap.Get(Moved(d, ps), k) == None
  {
    forall s | 0 <= s < |ps| ensures JsMap.HasKey(d, ps[s].0) && ps[s].1 != k {
      var a := SlotIndex(ps[s].0) - 1;
      SlotKeyStartsWithPrefix(pid, a);
      SlotKeyIs(pid, a);
    }
    MovedMiss(d, ps, k);
  }

  /** `handleDeleteSingleImage` rebuilt the map as the survivors followed by the moved entries. */
  lemma ReindexSplit(m: SlotMap, pid: string, n: nat)
    requires WellKeyed(m) && PlainId(pid)
    ensures var d := JsMap.Delete(m, SlotKey(pid, n));
            var ps := Renames(JsMap.Keys(d), pid, n);
            && WellKeyed(d) && !JsMap.HasKey(d, SlotKey(pid, n)) && RenamePlan(d, pid, n, ps)
            && Reindexed(m, pid, n) == Survivors(d, ps) + Moved(d, ps)
  {
    var key := SlotKey(pid, n);
    var d := JsMap.Delete(m, key);
    JsMap.DeleteSpec(m, key);
    WellKeyedDelete(m, key);
    var ps := Renames(JsMap.Keys(d), pid, n);
    RenamesPlan(d, pid, n);
    assert ps[..|ps|] == ps;
    ApplyPlan(d, pid, n, ps, |ps|);
  }

  /**
   * `handleDeleteSingleImage(pid, n)` on the staged files: slot `j` of `pid`
   * now holds what slot `j` held below `n` and what slot `j + 1` held from
   * `n` on; keys of other pictures are untouched.
   */
  lemma ReindexSpec(m: SlotMap, pid: string, n: nat)
    requires WellKeyed(m) && PlainId(pid)
    ensures forall j: nat :: JsMap.Get(Reindexed(m, pid, n), SlotKey(pid, j)) ==
                             JsMap.Get(m, SlotKey(pid, if j < n then j else j + 1))
    ensures forall k | !Js.StartsWith(k, SlotPrefix(pid)) :: JsMap.Get(Reindexed(m, pid, n), k) == JsMap.Get(m, k)
  {
    ReindexSplit(m, pid, n);
    var d := JsMap.Delete(m, SlotKey(pid, n));
    var ps := Renames(JsMap.Keys(d), pid, n);
    forall j: nat ensures JsMap.Get(Reindexed(m, pid, n), SlotKey(pid, j)) ==
                          JsMap.Get(m, SlotKey(pid, if j < n then j else j + 1)) {
      ReindexAt(m, d, pid, n, ps, j);
    }
    forall k | !Js.StartsWith(k, SlotPrefix(pid)) ensures JsMap.Get(Reindexed(m, pid, n), k) == JsMap.Get(m, k) {
      ReindexOther(m, d, pid, n, ps, k);
    }
  }

  /** The re-indexed map keeps the upload shape. */
  lemma ReindexKeepsShape(m: SlotMap, pid: string, n: nat)
    requires WellKeyed(m) && PlainId(pid)
    ensures WellKeyed(Reindexed(m, pid, n))
  {
    ReindexSplit(m, pid, n);
    var d := JsMap.Delete(m, SlotKey(pid, n));
    var ps := Renames(JsMap.Keys(d), pid, n);
    SurvivorsSpec(d, ps);
    MovedShape(d, pid, n, ps);
    SurvivorsBelow(d, pid, n, ps);
    WellKeyedConcat(Survivors(d, ps), Moved(d, ps));
  }

  /** `ReindexSpec` for one slot of `pid`. */
  lemma ReindexAt(m: SlotMap, d: SlotMap, pid: string, n: nat, ps: seq<(string, string)>, j: nat)
    requires PlainId(pid) && d == JsMap.Delete(m, SlotKey(pid, n))
    requires AllSlotKeys(d) && !JsMap.HasKey(d, SlotKey(pid, n)) && RenamePlan(d, pid, n, ps)
    ensures JsMap.Get(Survivors(d, ps) + Moved(d, ps), SlotKey(pid, j)) ==
            JsMap.Get(m, SlotKey(pid, if j < n then j else j + 1))
  {
    var k := SlotKey(pid, j);
    JsMap.GetConcat(Survivors(d, ps), Moved(d, ps), k);
    SlotKeyIs(pid, j);
    if j < n {
      SurvivorKept(m, pid, n, ps, k);
      MovedNone(d, pid, n, ps, k);
    } else {
      SurvivorGone(d, pid, n, ps, j);
      MovedGet(d, pid, n, ps, j);
      SlotKeyIndexInjective(pid, j + 1, n);
      JsMap.DeleteSpec(m, SlotKey(pid, n));
    }
  }

  /** `ReindexSpec` for a key of another picture. */
  lemma ReindexOther(m: SlotMap, d: SlotMap, pid: string, n: nat, ps: seq<(string, string)>, k: string)
    requires PlainId(pid) && d == JsMap.Delete(m, SlotKey(pid, n))
    requires AllSlotKeys(d) && RenamePlan(d, pid, n, ps) && !Js.StartsWith(k, SlotPrefix(pid))
    ensures JsMap.Get(Survivors(d, ps) + Moved(d, ps), k) == JsMap.Get(m, k)
  {
    JsMap.GetConcat(Survivors(d, ps), Moved(d, ps), k);
    SurvivorKept(m, pid, n, ps, k);
    MovedNone(d, pid, n, ps, k);
  }
}
