/** The resource inventory of philo/src/cleanup.c: a fixed table of 100 entries recording
    the mutexes, memory blocks and threads the program has created, with a high-water mark
    `resource_count` below which every active entry lies.  Pointers are integers and 0 is
    NULL; the inventory's own mutex carries no data. */
module Cleanup {

  const MAX_RESOURCES: int := 100

  /** RESOURCE_MUTEX, RESOURCE_MEMORY, RESOURCE_THREAD. */
  const RESOURCE_MUTEX: int := 1
  const RESOURCE_MEMORY: int := 2
  const RESOURCE_THREAD: int := 3

  /** A `t_resource_entry`; `description` holds the characters before its NUL. */
  datatype Entry = Entry(ptr: int, rtype: int, creationTime: int, owner: int, description: string,
                         isActive: bool)

  /** An entry as memset leaves it. */
  const Blank: Entry := Entry(0, 0, 0, 0, "", false)

  /** The pointers of the active entries. */
  function ActivePtrs(rs: seq<Entry>): (ptrs: set<int>)
  {
    set j | 0 <= j < |rs| && rs[j].isActive :: rs[j].ptr
  }

  /** No pointer is active in two entries. */
  predicate UniqueActive(rs: seq<Entry>)
  {
    forall j, k :: 0 <= j < k < |rs| && rs[j].isActive && rs[k].isActive ==> rs[j].ptr != rs[k].ptr
  }

  /** The lowest inactive slot, or |rs| when every slot is active. */
  function FirstInactive(rs: seq<Entry>, from: nat): (k: nat)
    requires from <= |rs|
    ensures from <= k <= |rs|
    ensures forall j :: from <= j < k ==> rs[j].isActive
    ensures k < |rs| ==> !rs[k].isActive
    decreases |rs| - from
  {
    if from == |rs| || !rs[from].isActive then from else FirstInactive(rs, from + 1)
  }

  /** The number of active entries. */
  function CountActive(rs: seq<Entry>): (n: nat)
    ensures n <= |rs|
  {
    if rs == [] then 0 else CountActive(rs[..|rs| - 1]) + if rs[|rs| - 1].isActive then 1 else 0
  }

  /** No entry is active exactly when the count of active entries is zero. */
  lemma {:induction false} CountActiveZero(rs: seq<Entry>)
    ensures CountActive(rs) == 0 <==> forall j :: 0 <= j < |rs| ==> !rs[j].isActive
  {
    if rs != [] {
      var init := rs[..|rs| - 1];
      CountActiveZero(init);
      assert forall j :: 0 <= j < |init| ==> init[j] == rs[j];
    }
  }

  /** The number of active entries of type `rtype`. */
  function CountOfType(rs: seq<Entry>, rtype: int): (n: nat)
    ensures n <= |rs|
  {
    if rs == [] then 0
    else CountOfType(rs[..|rs| - 1], rtype) + if rs[|rs| - 1].isActive && rs[|rs| - 1].rtype == rtype then 1 else 0
  }

  /** Activating an inactive slot adds its pointer to the active set. */
  lemma ActivateAdds(rs: seq<Entry>, k: int, e: Entry)
    requires 0 <= k < |rs| && !rs[k].isActive && e.isActive
    ensures ActivePtrs(rs[k := e]) == ActivePtrs(rs) + {e.ptr}
  {
    var rs' := rs[k := e];
    forall x | x in ActivePtrs(rs) + {e.ptr} ensures x in ActivePtrs(rs') {
      if x == e.ptr {
        assert rs'[k].isActive && rs'[k].ptr == x;
      } else {
        var j :| 0 <= j < |rs| && rs[j].isActive && rs[j].ptr == x;
        assert rs'[j] == rs[j];
      }
    }
  }

  /** Deactivating the only active entry of a pointer removes it from the active set. */
  lemma DeactivateRemoves(rs: seq<Entry>, k: int)
    requires 0 <= k < |rs| && rs[k].isActive && UniqueActive(rs)
    ensures ActivePtrs(rs[k := rs[k].(isActive := false)]) == ActivePtrs(rs) - {rs[k].ptr}
  {
    var rs' := rs[k := rs[k].(isActive := false)];
    forall x | x in ActivePtrs(rs') ensures x in ActivePtrs(rs) - {rs[k].ptr} {
      var j :| 0 <= j < |rs'| && rs'[j].isActive && rs'[j].ptr == x;
      assert j != k && rs[j] == rs'[j];
    }
    forall x | x in ActivePtrs(rs) - {rs[k].ptr} ensures x in ActivePtrs(rs') {
      var j :| 0 <= j < |rs| && rs[j].isActive && rs[j].ptr == x;
      assert j != k && rs'[j] == rs[j];
    }
  }

  /** The global `g_inventory`. */
  class Inventory {
    const resources: array<Entry>
    var resourceCount: int
    var isInitialized: bool

    /** A hundred slots, the high-water mark within them, nothing active above it, no
        pointer active twice and no active NULL. */
    ghost predicate Valid()
      reads this, resources
    {
      resources.Length == MAX_RESOURCES && 0 <= resourceCount <= MAX_RESOURCES
      && (forall j :: resourceCount <= j < MAX_RESOURCES ==> !resources[j].isActive)
      && UniqueActive(resources[..])
      && 0 !in ActivePtrs(resources[..])
      && (!isInitialized ==> ActivePtrs(resources[..]) == {})
    }

    /** The static initializer: zeroed entries, not yet initialized. */
    constructor ()
      ensures Valid() && !isInitialized && resourceCount == 0
      ensures forall j :: 0 <= j < MAX_RESOURCES ==> resources[j] == Blank
    {
      resources := new Entry[MAX_RESOURCES](_ => Blank);
      resourceCount := 0;
      isInitialized := false;
    }

    /** 0 without touching anything once initialized; -1 when the inventory mutex cannot be
        created; otherwise an empty table, now initialized, and 0. */
    method InitResourceInventory(mutexOk: bool) returns (r: int)
      requires Valid()
      modifies this, resources
      ensures Valid()
      ensures old(isInitialized) ==> r == 0 && unchanged(this) && unchanged(resources)
      ensures !old(isInitialized) && !mutexOk ==> r == -1 && unchanged(this) && unchanged(resources)
      ensures !old(isInitialized) && mutexOk ==>
        r == 0 && isInitialized && resourceCount == 0
        && forall j :: 0 <= j < MAX_RESOURCES ==> resources[j] == Blank
    {
      if isInitialized {
        return 0;
      }
      if !mutexOk {
        return -1;
      }
      resourceCount := 0;
      forall j | 0 <= j < resources.Length {
        resources[j] := Blank;
      }
      assert ActivePtrs(resources[..]) == {};
      isInitialized := true;
      r := 0;
    }

    /** Records `ptr` in the lowest free slot.  Refused with -1, changing nothing, for NULL,
        before initialization, for a pointer that is already active, and when all 100 slots are
        active.  On success the pointer joins the active set, the description is cut to 31
        characters and the high-water mark covers the slot. */
    method RegisterResource(ptr: int, rtype: int, description: string, now: int, self: int) returns (r: int)
      requires Valid()
      modifies this, resources
      ensures Valid()
      ensures r == 0 || r == -1
      ensures r == 0 <==> ptr != 0 && old(isInitialized) && ptr !in old(ActivePtrs(resources[..]))
                          && old(FirstInactive(resources[..], 0)) < MAX_RESOURCES
      ensures r == -1 ==> unchanged(this) && unchanged(resources)
      ensures r == 0 ==>
        var slot := old(FirstInactive(resources[..], 0));
        && resources[..] == old(resources[..])[slot := Entry(ptr, rtype, now, self,
             description[..if |description| < 31 then |description| else 31], true)]
        && resourceCount == (if slot >= old(resourceCount) then slot + 1 else old(resourceCount))
        && ActivePtrs(resources[..]) == old(ActivePtrs(resources[..])) + {ptr}
        && isInitialized
    {
      if ptr == 0 || !isInitialized {
        return -1;
      }
      var index := 0;
      while index < resourceCount
        invariant 0 <= index <= resourceCount
        invariant forall j :: 0 <= j < index ==> !(resources[j].ptr == ptr && resources[j].isActive)
      {
        if resources[index].ptr == ptr && resources[index].isActive {
          assert ptr in ActivePtrs(resources[..]) by {
            assert resources[..][index] == resources[index];
          }
          return -1;
        }
        index := index + 1;
      }
      assert ptr !in ActivePtrs(resources[..]);
      index := 0;
      while index < MAX_RESOURCES
        invariant 0 <= index <= FirstInactive(resources[..], 0)
      {
        if !resources[index].isActive {
          break;
        }
        index := index + 1;
      }
      if index >= MAX_RESOURCES {
        return -1;
      }
      assert index == FirstInactive(resources[..], 0);
      var len := if |description| < 31 then |description| else 31;
      var e := Entry(ptr, rtype, now, self, description[..len], true);
      ActivateAdds(resources[..], index, e);
      resources[index] := e;
      if index >= resourceCount {
        resourceCount := index + 1;
      }
      r := 0;
    }

    /** Deactivates the active entry of `ptr` and returns 0, or returns -1 when there is none
        (or `ptr` is NULL, or the inventory is not initialized).  Entries are never erased and the
        high-water mark stays where it was; the pointer leaves the active set. */
    method UnregisterResource(ptr: int) returns (r: int)
      requires Valid()
      modifies resources
      ensures Valid()
      ensures r == 0 || r == -1
      ensures r == 0 <==> ptr != 0 && isInitialized && ptr in old(ActivePtrs(resources[..]))
      ensures r == -1 ==> unchanged(resources)
      ensures r == 0 ==> exists k ::
        0 <= k < resourceCount && old(resources[k]).isActive && old(resources[k]).ptr == ptr
        && resources[..] == old(resources[..])[k := old(resources[k]).(isActive := false)]
      ensures ActivePtrs(resources[..]) == old(ActivePtrs(resources[..])) - {ptr}
    {
      if ptr == 0 || !isInitialized {
        return -1;
      }
      r := -1;
      var i := 0;
      while i < resourceCount
        invariant 0 <= i <= resourceCount
        invariant forall j :: 0 <= j < i ==> !(resources[j].ptr == ptr && resources[j].isActive)
      {
        if resources[i].ptr == ptr && resources[i].isActive {
          DeactivateRemoves(resources[..], i);
          resources[i] := resources[i].(isActive := false);
          return 0;
        }
        i := i + 1;
      }
      assert ptr !in ActivePtrs(resources[..]);
    }
    /** -1 when `data` is NULL, when the forks or the philosophers were not freed, or when the
        initialized inventory still holds an active entry; 0 when everything was released. */
    method VerifyCleanup(dataNull: bool, forksNull: bool, philosNull: bool) returns (r: int)
      requires Valid()
      ensures r == 0 || r == -1
      ensures r == -1 <==> dataNull || !forksNull || !philosNull || (isInitialized && ActivePtrs(resources[..]) != {})
    {
      if dataNull {
        return -1;
      }
      r := 0;
      if !forksNull {
        r := -1;
      }
      if !philosNull {
        r := -1;
      }
      if isInitialized {
        var active := 0;
        var i := 0;
        while i < resourceCount
          invariant 0 <= i <= resourceCount
          invariant active == CountActive(resources[..i])
        {
          assert resources[..i + 1][..i] == resources[..i];
          if resources[i].isActive {
            active := active + 1;
          }
          i := i + 1;
        }
        CountActiveZero(resources[..resourceCount]);
        assert active > 0 <==> ActivePtrs(resources[..]) != {} by {
          if active > 0 {
            var j :| 0 <= j < resourceCount && resources[..resourceCount][j].isActive;
            assert resources[..][j].ptr in ActivePtrs(resources[..]);
          }
        }
        if active > 0 {
          r := -1;
        }
      }
    }

    /** Releases every active entry of one type.  Thread entries are only deactivated, and
        their number is returned.  A mutex entry whose `pthread_mutex_destroy` fails (its
        pointer is in `destroyFails`) is skipped: it stays active and is not counted.  Before
        initialization, and for a type with no cleanup rule, nothing changes and 0 is
        returned. */
    method CleanupAllResourcesByType(rtype: int, destroyFails: set<int>) returns (cleaned: int)
      requires Valid()
      requires isInitialized && rtype == RESOURCE_MEMORY ==> CountOfType(resources[..resourceCount], rtype) == 0
      requires isInitialized && rtype == RESOURCE_MUTEX ==>
        forall j :: 0 <= j < resourceCount && resources[j].isActive && resources[j].rtype == RESOURCE_MUTEX ==>
          resources[j].ptr in destroyFails
      modifies resources
      ensures Valid()
      ensures !isInitialized || rtype != RESOURCE_THREAD ==> cleaned == 0 && unchanged(resources)
      ensures isInitialized && rtype == RESOURCE_THREAD ==>
        cleaned == old(CountOfType(resources[..resourceCount], RESOURCE_THREAD))
        && (forall j :: 0 <= j < MAX_RESOURCES ==>
              resources[j] == if old(resources[j]).isActive && old(resources[j]).rtype == RESOURCE_THREAD
                              then old(resources[j]).(isActive := false) else old(resources[j]))
    {
      if !isInitialized {
        return 0;
      }
      cleaned := 0;
      var i := 0;
      while i < resourceCount
        invariant 0 <= i <= resourceCount
        invariant rtype != RESOURCE_THREAD ==> unchanged(resources) && cleaned == 0
        invariant rtype == RESOURCE_THREAD ==> cleaned == CountOfType(old(resources[..])[..i], rtype)
        invariant forall j :: i <= j < MAX_RESOURCES ==> resources[j] == old(resources[j])
        invariant forall j :: 0 <= j < i ==>
          resources[j] == if rtype == RESOURCE_THREAD && old(resources[j]).isActive && old(resources[j]).rtype == rtype
                          then old(resources[j]).(isActive := false) else old(resources[j])
        invariant rtype == RESOURCE_MEMORY ==> CountOfType(old(resources[..])[..i], rtype) == 0
      {
        ghost var rs := old(resources[..]);
        assert rs[..i + 1][..i] == rs[..i];
        assert rs[i] == old(resources[i]);
        if rtype == RESOURCE_MEMORY {
          CountOfTypePrefix(rs[..resourceCount], rtype, i + 1);
          assert rs[..resourceCount][..i + 1] == rs[..i + 1];
        }
        if resources[i].isActive && resources[i].rtype == rtype {
          if rtype == RESOURCE_THREAD {
            resources[i] := resources[i].(isActive := false);
            cleaned := cleaned + 1;
          } else if rtype == RESOURCE_MUTEX {
            // pthread_mutex_destroy fails, so cleanup_single_mutex returns -1 before it
            // would unregister the entry (and lock the inventory mutex again)
            assert resources[i].ptr in destroyFails;
          } else if rtype == RESOURCE_MEMORY {
            // cleanup_memory would lock the inventory mutex again
            assert false;
          }
        }
        i := i + 1;
      }
      assert old(resources[..])[..resourceCount] == old(resources[..resourceCount]);
      assert forall j :: 0 <= j < MAX_RESOURCES && resources[j].isActive ==>
        old(resources[j]).isActive && resources[j].ptr == old(resources[j]).ptr;
      assert ActivePtrs(resources[..]) <= old(ActivePtrs(resources[..])) by {
        forall x | x in ActivePtrs(resources[..]) ensures x in old(ActivePtrs(resources[..])) {
          var j :| 0 <= j < MAX_RESOURCES && resources[..][j].isActive && resources[..][j].ptr == x;
          assert old(resources[..])[j] == old(resources[j]);
        }
      }
    }
  }

  /** A prefix never holds more entries of a type than the whole table. */
  lemma {:induction false} CountOfTypePrefix(rs: seq<Entry>, rtype: int, i: nat)
    requires i <= |rs|
    ensures CountOfType(rs[..i], rtype) <= CountOfType(rs, rtype)
    decreases |rs| - i
  {
    if i < |rs| {
      assert rs[..i + 1][..i] == rs[..i];
      CountOfTypePrefix(rs, rtype, i + 1);
    } else {
      assert rs[..i] == rs;
    }
  }
}
