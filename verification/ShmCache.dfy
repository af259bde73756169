/** The shared-memory segment and its operations. Each call runs under the one cross-process mutex. */
module ShmCache {
  import opened Options
  import opened ShmSpec
  import opened ShmTable
  import Layout = ShmLayout
  import Keys = CacheKeys

  const PRESSURE_WARN_INTERVAL := 60_000_000

  class Segment {
    const g: Hashing
    const nslots: nat
    const entrySizeMax: int
    const buckets: array<nat>
    const slots: array<Slot>
    var freeHead: nat
    var lastPressureWarning: int

    ghost var lists: seq<seq<nat>>
    ghost var contents: Contents

    ghost function Heads(): seq<nat>
      reads this, buckets
    {
      buckets[..] + [freeHead]
    }

    /** Ownership invariant with slot `out` in the hands of the running operation (0: none). */
    ghost predicate Held(out: nat)
      reads this, buckets, slots
    {
      && g.Valid() && nslots > 0
      && buckets.Length == g.nbuckets && slots.Length == nslots + 1 && out <= nslots
      && Partition(g, Heads(), slots[..], lists, out)
      && Represents(slots[..], out, contents)
    }

    ghost predicate Valid()
      reads this, buckets, slots
    {
      Held(0)
    }

    /** Walk a chain looking for a key; the predecessor is needed to unlink the slot. */
    method Walk(head: nat, sectionKey: string, ghost list: seq<nat>) returns (idx: nat, prev: nat, ghost pos: nat)
      requires IsList(slots[..], head, list)
      ensures pos <= |list| && idx == LinkAt(list, pos) && prev == if pos == 0 then 0 else list[pos - 1]
      ensures idx == 0 ==> forall i :: 0 <= i < |list| ==> slots[list[i]].sectionKey != sectionKey
      ensures idx != 0 ==> pos < |list| && slots[idx].sectionKey == sectionKey
    {
      prev, idx, pos := 0, head, 0;
      while idx != 0
        invariant pos <= |list| && idx == LinkAt(list, pos)
        invariant prev == if pos == 0 then 0 else list[pos - 1]
        invariant forall i :: 0 <= i < pos ==> slots[list[i]].sectionKey != sectionKey
        decreases |list| - pos
      {
        if slots[idx].sectionKey == sectionKey {
          return;
        }
        prev, idx, pos := idx, slots[idx].next, pos + 1;
      }
    }

    method Find(bucket: nat, sectionKey: string) returns (idx: nat, prev: nat, ghost pos: nat)
      requires Valid() && sectionKey != "" && bucket == g.Bucket(sectionKey)
      ensures idx == 0 <==> sectionKey !in contents
      ensures idx != 0 ==> Holds(slots[..], 0, idx, sectionKey)
      ensures idx != 0 ==> pos < |lists[bucket]| && idx == lists[bucket][pos]
                           && prev == if pos == 0 then 0 else lists[bucket][pos - 1]
    {
      ghost var list := lists[bucket];
      assert ListOk(g, slots[..], Heads()[bucket], list, bucket, 0);
      idx, prev, pos := Walk(buckets[bucket], sectionKey, list);
      KeyOnItsChain(g, Heads(), slots[..], lists, contents, sectionKey);
      assert idx != 0 ==> Holds(slots[..], 0, idx, sectionKey);
    }

    /** Make the predecessor of slot idx, or the bucket head when it has none, skip the slot. */
    method SkipSlot(bucket: nat, prev: nat, idx: nat, ghost list: seq<nat>, ghost pos: nat)
      requires bucket < buckets.Length && IsList(slots[..], Heads()[bucket], list) && pos < |list|
      requires idx == list[pos] && prev == if pos == 0 then 0 else list[pos - 1]
      modifies buckets, slots
      ensures slots[..] == UnlinkSlots(old(slots[..]), list, pos)
      ensures Heads() == old(Heads())[bucket := UnlinkHead(old(slots[..]), old(Heads())[bucket], list, pos)]
    {
      if prev != 0 {
        slots[prev] := slots[prev].(next := slots[idx].next);
      } else {
        buckets[bucket] := slots[idx].next;
      }
    }

    /** Unlink slot idx from chain `bucket`. */
    method Detach(bucket: nat, prev: nat, idx: nat, ghost pos: nat)
      requires Valid() && bucket < g.nbuckets && pos < |lists[bucket]|
      requires idx == lists[bucket][pos] && prev == if pos == 0 then 0 else lists[bucket][pos - 1]
      modifies this`lists, this`contents, buckets, slots
      ensures Held(idx) && 0 < idx
      ensures SamePayload(old(slots[..]), slots[..])
      ensures contents == old(contents) - {slots[idx].sectionKey}
    {
      hide ListOk, Covered, Represents, IsList;
      UnlinkKeepsPartition(g, Heads(), slots[..], lists, bucket, pos);
      UnlinkKeepsPayload(slots[..], lists[bucket], pos);
      ghost var slots0 := slots[..];
      SkipSlot(bucket, prev, idx, lists[bucket], pos);
      TakeOut(slots0, slots[..], idx, contents);
      contents := contents - {slots[idx].sectionKey};
      lists := lists[bucket := RemoveAt(lists[bucket], pos)];
    }

    /** Put the already-unlinked slot idx on the free list. */
    method SlotFree(idx: nat)
      requires Held(idx) && 0 < idx
      modifies this`freeHead, this`lists, slots
      ensures Valid()
    {
      hide ListOk, Covered;
      ghost var x := slots[idx].(sectionKey := "", access := 0, next := freeHead);
      ghost var slots0, heads0 := slots[..], Heads();
      PushKeepsPartition(g, heads0, slots0, lists, idx, x);
      PutBack(slots0, idx, x, contents);
      slots[idx] := slots[idx].(sectionKey := "");
      slots[idx] := slots[idx].(access := 0);
      slots[idx] := slots[idx].(next := freeHead);
      freeHead := idx;
      assert slots[..] == slots0[idx := x];
      assert Heads() == heads0[g.nbuckets := idx];
      lists := lists[g.nbuckets := [idx] + lists[g.nbuckets]];
    }

    method Touch(idx: nat, now: int)
      requires Valid() && Occupied(slots[..], 0, idx)
      modifies this`contents, slots
      ensures Valid() && slots[idx] == old(slots[idx]).(access := now)
      ensures contents == old(contents)[slots[idx].sectionKey := old(contents[slots[idx].sectionKey]).(access := now)]
    {
      hide ListOk, Covered, IsList, ListsOk;
      ghost var slots0, x := slots[..], slots[idx].(access := now);
      RewriteKeepsPartition(g, Heads(), slots0, lists, idx, x);
      Rewrite(slots0, idx, x, contents);
      slots[idx] := slots[idx].(access := now);
      assert slots[..] == slots0[idx := x];
      contents := contents[x.sectionKey := Entry(x.value, x.expires, now)];
    }

    /** Look up "section:key"; an expired entry is dropped on the way. `now` is the clock, locks may fail. */
    method Get(section: string, key: string, now: int, lockOk: bool, unlockOk: bool)
      returns (rc: bool, value: Option<string>)
      requires Valid()
      modifies this`freeHead, this`lists, this`contents, buckets, slots
      ensures Valid()
      ensures var sk := section + ":" + key;
              if |sk| >= 512 || !lockOk then !rc && value == None && contents == old(contents)
              else rc == unlockOk && GetSpec(old(contents), sk, now, contents, value)
    {
      hide ListOk, Covered, IsList, ListsOk;
      var sectionKey := Keys.SectionKey(section, key);
      value := None;
      if |sectionKey| >= Keys.KEY_SIZE_MAX {
        return false, value;
      }
      var bucket := g.Bucket(sectionKey);
      if !lockOk {
        return false, value;
      }
      var idx, prev, pos := Find(bucket, sectionKey);
      if idx != 0 {
        assert Occupied(slots[..], 0, idx);
        if slots[idx].expires > now {
          Touch(idx, now);
          value := Some(slots[idx].value);
        } else {
          Detach(bucket, prev, idx, pos);
          SlotFree(idx);
        }
      }
      rc := unlockOk;
    }

    /** Walk a chain looking for a slot by its index. */
    method WalkTo(head: nat, idx: nat, ghost list: seq<nat>) returns (found: bool, prev: nat, ghost pos: nat)
      requires IsList(slots[..], head, list)
      ensures found <==> idx in list
      ensures found ==> pos < |list| && list[pos] == idx && prev == if pos == 0 then 0 else list[pos - 1]
    {
      prev, pos := 0, 0;
      var i := head;
      while i != 0
        invariant pos <= |list| && i == LinkAt(list, pos) && prev == if pos == 0 then 0 else list[pos - 1]
        invariant idx !in list[..pos]
        decreases |list| - pos
      {
        if i == idx {
          return true, prev, pos;
        }
        prev, i, pos := i, slots[i].next, pos + 1;
      }
      found := false;
    }

    /** Unlink an occupied slot, found by its index, from the chain of its own key. */
    method Unlink(idx: nat) returns (ok: bool)
      requires Valid() && Occupied(slots[..], 0, idx)
      modifies this`lists, this`contents, buckets, slots
      ensures ok && Held(idx)
      ensures SamePayload(old(slots[..]), slots[..])
      ensures contents == old(contents) - {slots[idx].sectionKey}
    {
      var bucket := g.Bucket(slots[idx].sectionKey);
      OnItsChain(idx, bucket);
      hide ListOk, ListsOk, Covered, Represents, IsList, SamePayload;
      var prev; ghost var pos;
      ok, prev, pos := WalkTo(buckets[bucket], idx, lists[bucket]);
      if ok {
        Detach(bucket, prev, idx, pos);
      }
    }

    lemma OnItsChain(idx: nat, bucket: nat)
      requires Valid() && Occupied(slots[..], 0, idx) && bucket == g.Bucket(slots[idx].sectionKey)
      ensures idx in lists[bucket] && IsList(slots[..], Heads()[bucket], lists[bucket])
    {
    }

    /** The slot eviction picks at `now`: the first expired one, else the first with the oldest access. */
    ghost predicate IsVictimSlot(now: int, v: nat)
      requires slots.Length == nslots + 1
      reads this, slots
    {
      && Occupied(slots[..], 0, v)
      && if exists s: nat :: Occupied(slots[..], 0, s) && slots[s].expires <= now then
           slots[v].expires <= now && forall s: nat :: Occupied(slots[..], 0, s) && s < v ==> slots[s].expires > now
         else
           forall s: nat :: Occupied(slots[..], 0, s) ==>
             slots[v].access <= slots[s].access && (s < v ==> slots[v].access < slots[s].access)
    }

    /** Scan all slots for the eviction victim; 0 when no slot is occupied. */
    method ChooseVictim(now: int) returns (expiredVictim: nat, victim: nat)
      requires slots.Length == nslots + 1
      ensures victim == 0 <==> forall s: nat :: !Occupied(slots[..], 0, s)
      ensures victim != 0 ==> IsVictimSlot(now, victim)
      ensures expiredVictim != 0 <==> exists s: nat :: Occupied(slots[..], 0, s) && slots[s].expires <= now
    {
      expiredVictim := 0;
      var lruVictim: nat, oldest := 0, 0;
      for idx := 1 to nslots + 1
        invariant lruVictim == 0 ==> forall s: nat :: s < idx ==> !Occupied(slots[..], 0, s)
        invariant lruVictim != 0 ==> Occupied(slots[..], 0, lruVictim) && lruVictim < idx
        invariant lruVictim != 0 ==> oldest == slots[lruVictim].access
        invariant lruVictim != 0 ==> forall s: nat :: s < idx && Occupied(slots[..], 0, s) ==>
                    oldest <= slots[s].access && (s < lruVictim ==> oldest < slots[s].access)
        invariant expiredVictim == 0 ==> forall s: nat :: s < idx && Occupied(slots[..], 0, s) ==>
                    slots[s].expires > now
        invariant expiredVictim != 0 ==> Occupied(slots[..], 0, expiredVictim) && slots[expiredVictim].expires <= now
        invariant expiredVictim != 0 ==> forall s: nat :: s < expiredVictim && Occupied(slots[..], 0, s) ==>
                    slots[s].expires > now
      {
        if slots[idx].sectionKey == "" {
          assert !Occupied(slots[..], 0, idx);
          continue;
        }
        assert Occupied(slots[..], 0, idx);
        if expiredVictim == 0 && slots[idx].expires <= now {
          expiredVictim := idx;
        }
        if lruVictim == 0 || slots[idx].access < oldest {
          lruVictim := idx;
          oldest := slots[idx].access;
        }
      }
      victim := if expiredVictim != 0 then expiredVictim else lruVictim;
    }

    lemma VictimSlotIsVictim(now: int, v: nat)
      requires Valid() && IsVictimSlot(now, v)
      ensures IsVictim(contents, now, slots[v].sectionKey)
    {
      hide Partition;
      forall k | k in contents
        ensures exists s: nat :: Occupied(slots[..], 0, s) && slots[s].sectionKey == k
                                 && contents[k].access == slots[s].access && contents[k].expires == slots[s].expires
      {
        var s: nat :| Holds(slots[..], 0, s, k);
        assert Occupied(slots[..], 0, s);
      }
      assert forall s: nat :: Occupied(slots[..], 0, s) ==>
        slots[s].sectionKey in contents && contents[slots[s].sectionKey].expires == slots[s].expires;
    }

    lemma NoneOccupiedIffEmpty()
      requires Valid()
      ensures contents == map[] <==> forall s: nat :: !Occupied(slots[..], 0, s)
    {
    }

    /** How many seconds ago the slot was used, when that is recent enough to be worth a warning at `now`. */
    function PressureAge(now: int, access: int): (age: int)
      reads this`lastPressureWarning
    {
      var age := if now >= access then (now - access) / 1_000_000 else 0;
      if age < 3600
         && (lastPressureWarning == 0 || now < lastPressureWarning
             || now - lastPressureWarning >= PRESSURE_WARN_INTERVAL)
      then age else -1
    }

    /** A warning is due for an entry used within the last hour, at most once a minute; its age is in whole seconds. */
    lemma WarningIsDueIff(now: int, access: int)
      ensures PressureAge(now, access) >= 0 <==>
              now - access < 3_600_000_000
              && (lastPressureWarning == 0 || now < lastPressureWarning || now - lastPressureWarning >= 60_000_000)
      ensures PressureAge(now, access) >= 0 ==>
                if now < access then PressureAge(now, access) == 0
                else 0 <= now - access - 1_000_000 * PressureAge(now, access) < 1_000_000
      ensures PressureAge(now, access) >= -1
    {
    }

    /** Reclaim an expired entry, otherwise the least recently used one; 0 when nothing is stored. */
    method Evict(now: int) returns (victim: nat, pressureAge: int)
      requires Valid()
      modifies this`lastPressureWarning, this`lists, this`contents, buckets, slots
      ensures Held(victim)
      ensures victim == 0 <==> old(contents) == map[]
      ensures victim == 0 ==> contents == old(contents)
      ensures victim != 0 ==> old(IsVictimSlot(now, victim))
      ensures victim != 0 ==> IsVictim(old(contents), now, old(slots[victim]).sectionKey)
      ensures victim != 0 ==> contents == old(contents) - {old(slots[victim]).sectionKey}
      ensures pressureAge == if victim == 0
                || old(exists s: nat :: Occupied(slots[..], 0, s) && slots[s].expires <= now) then -1
                             else old(PressureAge(now, slots[victim].access))
      ensures lastPressureWarning == if pressureAge >= 0 then now else old(lastPressureWarning)
    {
      hide ListOk, ListsOk, Covered, Represents;
      pressureAge := -1;
      NoneOccupiedIffEmpty();
      var expiredVictim;
      expiredVictim, victim := ChooseVictim(now);
      if victim == 0 {
        return;
      }
      VictimSlotIsVictim(now, victim);
      if expiredVictim == 0 {
        var access := slots[victim].access;
        var age := if now >= access then (now - access) / 1_000_000 else 0;
        if age < 3600
           && (lastPressureWarning == 0 || now < lastPressureWarning
               || now - lastPressureWarning >= PRESSURE_WARN_INTERVAL) {
          lastPressureWarning := now;
          pressureAge := age;
        }
      }
      var ok := Unlink(victim);
      assert ok;  // an occupied slot is always found on its own chain
    }

    /** Take the first slot off a non-empty free list. */
    method TakeFree() returns (idx: nat)
      requires Valid() && freeHead != 0
      modifies this`freeHead, this`lists
      ensures Held(idx) && 0 < idx && contents == old(contents)
    {
      hide ListOk, ListsOk, Covered, IsList, Represents;
      idx := freeHead;
      FreeSlotHasNoKey(idx);
      UnlinkKeepsPartition(g, Heads(), slots[..], lists, g.nbuckets, 0);
      TakeOut(slots[..], slots[..], idx, contents);
      ghost var heads0 := Heads();
      freeHead := slots[idx].next;
      assert Heads() == heads0[g.nbuckets := slots[idx].next];
      assert contents - {""} == contents;
      lists := lists[g.nbuckets := RemoveAt(lists[g.nbuckets], 0)];
    }

    lemma FreeSlotHasNoKey(idx: nat)
      requires Valid() && freeHead != 0 && idx == freeHead
      ensures |lists| == g.nbuckets + 1 && lists[g.nbuckets] != [] && lists[g.nbuckets][0] == idx
      ensures 0 < idx <= nslots && slots[idx].sectionKey == "" && "" !in contents
    {
      hide Covered;
      assert ListOk(g, slots[..], Heads()[g.nbuckets], lists[g.nbuckets], g.nbuckets, 0);
    }

    /** Overwrite the payload of slot idx. */
    method EntryUpdate(idx: nat, value: string, expiry: int, access: int)
      requires 0 < idx < slots.Length
      modifies slots
      ensures slots[..] == old(slots[..])[idx := old(slots[idx]).(value := value, expires := expiry, access := access)]
    {
      slots[idx] := slots[idx].(value := value);
      slots[idx] := slots[idx].(expires := expiry);
      slots[idx] := slots[idx].(access := access);
    }

    /** Fill slot idx, which is on no list, and push it on its bucket chain. */
    method EntryInsert(bucket: nat, idx: nat, sectionKey: string, value: string, expiry: int, access: int)
      requires Held(idx) && 0 < idx && sectionKey != "" && sectionKey !in contents && bucket == g.Bucket(sectionKey)
      modifies this`lists, this`contents, buckets, slots
      ensures Valid() && contents == old(contents)[sectionKey := Entry(value, expiry, access)]
    {
      assert |lists| == g.nbuckets + 1;
      hide ListOk, ListsOk, Covered, Represents;
      ghost var slots0, heads0 := slots[..], Heads();
      ghost var x := Slot(sectionKey, access, expiry, buckets[bucket], value);
      PushKeepsPartition(g, heads0, slots0, lists, idx, x);
      PutBack(slots0, idx, x, contents);
      slots[idx] := slots[idx].(next := buckets[bucket]);
      buckets[bucket] := idx;
      slots[idx] := slots[idx].(sectionKey := sectionKey);
      EntryUpdate(idx, value, expiry, access);
      assert slots[..] == slots0[idx := x];
      assert Heads() == heads0[bucket := idx];
      contents := contents[sectionKey := Entry(value, expiry, access)];
      lists := lists[bucket := [idx] + lists[bucket]];
    }

    /** A value is admitted only when it fits the slot with its terminating NUL. */
    predicate Admitted(value: string)
      ensures Admitted(value) <==> 576 + |value| < entrySizeMax
    {
      var valueSizeMax := Layout.ValueSizeMax(entrySizeMax);
      valueSizeMax > 0 && |value| < valueSizeMax
    }

    /** Store (Some) or delete (None) "section:key". */
    method Set(section: string, key: string, value: Option<string>, expiry: int, now: int, lockOk: bool, unlockOk: bool)
      returns (rc: bool)
      requires Valid()
      modifies this, buckets, slots
      ensures Valid()
      ensures var sk := section + ":" + key;
              if |sk| >= 512 || (value.Some? && 576 + |value.value| >= entrySizeMax) || !lockOk then
                !rc && contents == old(contents)
              else if value == None then
                rc == unlockOk && contents == old(contents) - {sk}
              else
                rc == unlockOk && SetSpec(nslots, old(contents), sk, Entry(value.value, expiry, now), contents)
    {
      hide ListOk, Covered, ListsOk;
      var sectionKey := Keys.SectionKey(section, key);
      if |sectionKey| >= Keys.KEY_SIZE_MAX {
        return false;
      }
      if value.Some? && !Admitted(value.value) {
        return false;
      }
      var bucket := g.Bucket(sectionKey);
      if !lockOk {
        return false;
      }
      var idx, prev, pos := Find(bucket, sectionKey);
      if value == None {
        if idx != 0 {
          Detach(bucket, prev, idx, pos);
          SlotFree(idx);
        }
        return unlockOk;
      }
      if idx != 0 {
        Overwrite(idx, value.value, expiry, now);
      } else {
        FullIffNoFreeSlot(g, Heads(), slots[..], lists, contents);
        var pressureAge;
        if freeHead != 0 {
          idx := TakeFree();
        } else {
          idx, pressureAge := Evict(now);
        }
        if idx != 0 {
          EntryInsert(bucket, idx, sectionKey, value.value, expiry, now);
        }
      }
      rc := idx != 0 && unlockOk;
    }

    /** Replace the value under a key that is already stored in slot idx. */
    method Overwrite(idx: nat, value: string, expiry: int, access: int)
      requires Valid() && Occupied(slots[..], 0, idx)
      modifies this`contents, slots
      ensures Valid() && contents == old(contents)[old(slots[idx]).sectionKey := Entry(value, expiry, access)]
    {
      hide ListOk, Covered, IsList, ListsOk, Represents;
      ghost var slots0, x := slots[..], slots[idx].(value := value, expires := expiry, access := access);
      RewriteKeepsPartition(g, Heads(), slots0, lists, idx, x);
      Rewrite(slots0, idx, x, contents);
      EntryUpdate(idx, value, expiry, access);
      contents := contents[x.sectionKey := Entry(value, expiry, access)];
    }

    /** The segment's links are sound: some lists partition all slots over the buckets and the free list. */
    ghost predicate WellFormed()
      requires g.Valid()
      reads this, buckets, slots
    {
      exists ls :: Partition(g, Heads(), slots[..], ls, 0)
    }

    /** Follow list l from its head, marking slots; arbitrary links are tolerated. */
    method ValidateChain(l: nat, visited: array<bool>, ghost done: seq<seq<nat>>)
        returns (ok: bool, ghost cur: seq<nat>)
      requires g.Valid() && buckets.Length == g.nbuckets && slots.Length == nslots + 1 == visited.Length
      requires l == |done| <= g.nbuckets && Walked(g, Heads(), slots[..], done)
      requires forall s :: 0 <= s <= nslots ==> (visited[s] <==> InSome(done, s))
      modifies visited
      ensures ok ==> ListOk(g, slots[..], Heads()[l], cur, l, 0)
      ensures ok ==> forall s :: 0 <= s <= nslots ==> (visited[s] <==> InSome(done, s) || s in cur)
      ensures !ok ==> !WellFormed()
    {
      var idx: nat := if l < g.nbuckets then buckets[l] else freeHead;
      cur := [];
      ghost var left := UpTo(nslots);
      while idx != 0
        invariant Chain(slots[..], Heads()[l], cur, idx) && Distinct(cur)
        invariant forall s :: s in cur ==> s <= nslots && g.Home(slots[s].sectionKey) == l
        invariant forall s :: 0 <= s <= nslots ==> (visited[s] <==> InSome(done, s) || s in cur)
        invariant forall s :: 0 < s <= nslots && !visited[s] ==> s in left
        invariant forall s :: s in left ==> s <= nslots && s !in cur
        decreases left
      {
        hide ListOk, Partition, Covered, Chain, Distinct, Walked, InSome;
        if idx > nslots || visited[idx]
           || (if l < g.nbuckets then slots[idx].sectionKey == "" || g.Bucket(slots[idx].sectionKey) != l
               else slots[idx].sectionKey != "")
        {
          Refute(done, cur, idx);
          return false, cur;
        }
        ChainStep(g, slots[..], Heads()[l], cur, idx, l);
        visited[idx] := true;
        cur, left, idx := cur + [idx], left - {idx}, slots[idx].next;
      }
      ChainEnd(g, slots[..], Heads()[l], cur, l);
      ok := true;
    }

    lemma Refute(done: seq<seq<nat>>, cur: seq<nat>, idx: nat)
      requires g.Valid() && buckets.Length == g.nbuckets && slots.Length == nslots + 1
      requires |done| <= g.nbuckets && Walked(g, Heads(), slots[..], done)
      requires Chain(slots[..], Heads()[|done|], cur, idx) && idx != 0
      requires idx > nslots || InSome(done, idx) || idx in cur || g.Home(slots[idx].sectionKey) != |done|
      ensures !WellFormed()
    {
      hide ListOk, ListsOk, Covered;
      forall ls ensures !Partition(g, Heads(), slots[..], ls, 0) {
        if ListsOk(g, Heads(), slots[..], ls, 0) {
          NextStepIsSound(g, Heads(), slots[..], done, cur, idx, ls);
        }
      }
    }

    method ValidateBuckets(visited: array<bool>) returns (ok: bool, ghost done: seq<seq<nat>>)
      requires g.Valid() && buckets.Length == g.nbuckets && slots.Length == nslots + 1 == visited.Length
      requires forall s :: 0 <= s <= nslots ==> !visited[s]
      modifies visited
      ensures !ok ==> !WellFormed()
      ensures ok ==> |done| == g.nbuckets && Walked(g, Heads(), slots[..], done)
      ensures ok ==> forall s :: 0 <= s <= nslots ==> (visited[s] <==> InSome(done, s))
    {
      done := [];
      for b := 0 to g.nbuckets
        invariant |done| == b && Walked(g, Heads(), slots[..], done)
        invariant forall s :: 0 <= s <= nslots ==> (visited[s] <==> InSome(done, s))
      {
        ghost var cur;
        ok, cur := ValidateChain(b, visited, done);
        if !ok {
          return;
        }
        InSomeAppend(done, cur);
        done := done + [cur];
      }
      ok := true;
    }

    /** Diagnose the segment: TRUE exactly when the locks work and the links are sound. */
    method Validate(lockOk: bool, unlockOk: bool) returns (valid: bool)
      requires g.Valid() && buckets.Length == g.nbuckets && slots.Length == nslots + 1
      ensures valid <==> lockOk && unlockOk && WellFormed()
    {
      if !lockOk {
        return false;
      }
      var visited := new bool[nslots + 1](_ => false);
      ghost var done, cur;
      valid, done := ValidateBuckets(visited);
      if valid {
        valid, cur := ValidateChain(g.nbuckets, visited, done);
        if valid {
          InSomeAppend(done, cur);
          done := done + [cur];
          valid := ValidateOwnership(visited);
          ChainsDecide(done, visited[..]);
        }
      }
      if !unlockOk {
        valid := false;
      }
    }

    lemma ChainsDecide(done: seq<seq<nat>>, visited: seq<bool>)
      requires g.Valid() && buckets.Length == g.nbuckets && slots.Length == nslots + 1 == |visited|
      requires |done| == g.nbuckets + 1 && Walked(g, Heads(), slots[..], done)
      requires forall s :: 0 <= s <= nslots ==> (visited[s] <==> InSome(done, s))
      ensures WellFormed() <==> forall s :: 0 < s <= nslots ==> visited[s]
    {
      SoundIffNoOrphan(g, Heads(), slots[..], done);
      if forall s :: 0 < s <= nslots ==> visited[s] {
        forall s: nat | 0 < s < slots.Length ensures InSome(done, s) {
          assert visited[s];
        }
      }
    }

    method ValidateOwnership(visited: array<bool>) returns (ok: bool)
      requires visited.Length == nslots + 1
      ensures ok <==> forall s :: 0 < s <= nslots ==> visited[s]
    {
      for idx := 1 to nslots + 1
        invariant forall s :: 0 < s < idx ==> visited[s]
      {
        if !visited[idx] {
          return false;
        }
      }
      ok := true;
    }

    /** An empty segment: every slot on the free list, every bucket empty. */
    constructor (nslots: nat, entrySizeMax: int, g: Hashing)
      requires nslots > 0 && g.Valid()
      ensures Valid() && contents == map[]
      ensures this.nslots == nslots && this.entrySizeMax == entrySizeMax && this.g == g
      ensures fresh(buckets) && fresh(slots)
    {
      this.nslots, this.entrySizeMax, this.g := nslots, entrySizeMax, g;
      buckets := new nat[g.nbuckets](_ => 0);
      slots := new Slot[nslots + 1](_ => Slot("", 0, 0, 0, ""));
      lastPressureWarning := 0;
      freeHead := 1;
      new;
      for i := 1 to nslots + 1
        invariant buckets.Length == g.nbuckets && forall b :: 0 <= b < g.nbuckets ==> buckets[b] == 0
        invariant slots.Length == nslots + 1 && forall s {:trigger slots[s]} :: 0 < s < i ==>
                    slots[s].sectionKey == "" && slots[s].next == if s < nslots then s + 1 else 0
        invariant fresh(slots) && freeHead == 1
      {
        slots[i] := slots[i].(sectionKey := "", access := 0, next := if i < nslots then i + 1 else 0);
      }
      contents := map[];
      lists := seq(g.nbuckets, _ => []) + [seq(nslots, i => i + 1)];
      assert Heads()[g.nbuckets] == 1 && forall b :: 0 <= b < g.nbuckets ==> Heads()[b] == buckets[b];
      hide ListsOk, Covered, Represents;
      FreshTable(g, Heads(), slots[..]);
      assert |slots[..]| - 1 == nslots;
    }
  }

  lemma InSomeAppend(lists: seq<seq<nat>>, list: seq<nat>)
    ensures forall s :: InSome(lists + [list], s) <==> InSome(lists, s) || s in list
  {
    forall s: nat ensures InSome(lists + [list], s) <==> InSome(lists, s) || s in list {
      assert s in list ==> s in (lists + [list])[|lists|];
      if l :| 0 <= l < |lists| && s in lists[l] {
        assert s in (lists + [list])[l];
      }
    }
  }

  /**
   * Create the segment in the parent process; no segment when it would be too large, or when the system
   * does not provide the memory, the random hash key or the mutex.
   */
  method PostConfig(sizeMax: Layout.int32, entrySizeMax: Layout.int32, hash: string -> nat, addressMax: nat,
                    shmOk: bool, randomOk: bool, mutexOk: bool)
    returns (seg: Segment?, ghost k: nat)
    requires sizeMax > 0 && entrySizeMax > 0
    ensures Layout.SmallestPow2AtLeast(k, sizeMax)
    ensures seg != null <==> Layout.ExactTotal(sizeMax, entrySizeMax, Layout.Pow2(k)) <= Layout.TotalMax(addressMax)
                             && shmOk && randomOk && mutexOk
    ensures seg != null ==> fresh(seg) && seg.Valid() && seg.contents == map[] && seg.nslots == sizeMax
                            && seg.g.nbuckets == Layout.Pow2(k)
  {
    hide Layout.ExactTotal, Layout.SegmentSize;
    var nbuckets;
    nbuckets, k := Layout.BucketCount(sizeMax);
    Layout.SegmentSizeIsExact(sizeMax, entrySizeMax, nbuckets, addressMax);
    var total := Layout.SegmentSize(sizeMax, entrySizeMax, nbuckets, addressMax);
    if total == Layout.Refused || !shmOk || !randomOk {
      return null, k;
    }
    seg := new Segment(sizeMax, entrySizeMax, Hashing(nbuckets, hash));
    if !mutexOk {
      seg := null;
    }
  }
}
