/** The least-frequently-used file cache (kernel/file_cache.c:12-93). */
module FileCache {
  const SLOTS := 16
  const ENTRY_SIZE := 4096
  const WORD := 0x1_0000_0000

  const NAME_SIZE := 64

  type Bytes = seq<bv8>

  /** What fits an entry's name field: a C string of at most 63 bytes. */
  type Name = s: string | |s| < NAME_SIZE && '\0' !in s witness ""
  datatype Option<T> = None | Some(value: T)
  datatype Entry = Entry(name: Name, data: Bytes, hits: nat)
  datatype Cache = Cache(entries: seq<Entry>, hits: nat, misses: nat)

  datatype Event = Get(name: Name) | Put(name: Name, data: Bytes) | Invalidate(name: Name) | Flush

  /** The counters are 32-bit words. */
  function Word(x: nat): (r: nat) ensures r < WORD { x % WORD }
  function Inc(x: nat): (r: nat) ensures r < WORD { Word(x + 1) }

  lemma IncWord(x: nat, y: nat)
    ensures Inc(Word(x)) == Word(x + 1) && Word(Inc(x) + y) == Word(x + 1 + y) && Word(y + Inc(x)) == Word(x + 1 + y)
  {
    assert (x + 1) % WORD + y == x + 1 + y - (x + 1) / WORD * WORD;
  }

  function Find(es: seq<Entry>, name: Name): (i: nat)
    ensures i <= |es| && (i < |es| ==> es[i].name == name)
    ensures forall k | 0 <= k < i :: es[k].name != name
  {
    if es == [] || es[0].name == name then 0
    else
      var i := 1 + Find(es[1..], name);
      assert forall k | 0 < k < |es| :: es[k] == es[1..][k - 1];
      i
  }

  /** The lowest index of minimum hits. */
  function Victim(es: seq<Entry>): (v: nat)
    requires |es| > 0
    ensures v < |es|
    ensures forall k | 0 <= k < |es| :: es[v].hits <= es[k].hits
    ensures forall k | 0 <= k < v :: es[v].hits < es[k].hits
  {
    if |es| == 1 then 0
    else
      var v := Victim(es[..|es| - 1]);
      if es[|es| - 1].hits < es[v].hits then |es| - 1 else v
  }

  function Lookup(es: seq<Entry>, name: Name): Option<Bytes> {
    var i := Find(es, name);
    if i < |es| then Some(es[i].data) else None
  }

  function Touch(c: Cache, name: Name): Cache {
    var i := Find(c.entries, name);
    if i < |c.entries| then
      var e := c.entries[i];
      Cache(c.entries[i := e.(hits := Inc(e.hits))], Inc(c.hits), c.misses)
    else c.(misses := Inc(c.misses))
  }

  function Store(es: seq<Entry>, name: Name, data: Bytes): seq<Entry> {
    var i := Find(es, name);
    if |data| > ENTRY_SIZE then es
    else if i < |es| then es[i := es[i].(data := data)]
    else if |es| < SLOTS then es + [Entry(name, data, 0)]
    else es[Victim(es) := Entry(name, data, 0)]
  }

  function Without(es: seq<Entry>, i: nat): (r: seq<Entry>)
    requires i < |es|
    ensures |r| == |es| - 1
  {
    es[..i] + es[i + 1..]
  }

  function Drop(es: seq<Entry>, name: Name): seq<Entry> {
    var i := Find(es, name);
    if i < |es| then Without(es, i) else es
  }

  function Step(c: Cache, e: Event): Cache {
    match e
    case Get(n) => Touch(c, n)
    case Put(n, d) => c.(entries := Store(c.entries, n, d))
    case Invalidate(n) => c.(entries := Drop(c.entries, n))
    case Flush => Cache([], 0, 0)
  }

  /** The cache after a history, oldest event first, from the initial state. */
  function Run(es: seq<Event>): Cache {
    if es == [] then Cache([], 0, 0) else Step(Run(es[..|es| - 1]), es[|es| - 1])
  }

  // ---- What a history says about one name, without mentioning slots ----

  /** The bytes of the latest accepted put of a name not since invalidated or flushed. */
  function Latest(es: seq<Event>, name: Name): Option<Bytes> {
    if es == [] then None
    else
      match es[|es| - 1]
      case Put(n, d) => if n == name && |d| <= ENTRY_SIZE then Some(d) else Latest(es[..|es| - 1], name)
      case Invalidate(n) => if n == name then None else Latest(es[..|es| - 1], name)
      case Flush => None
      case Get(_) => Latest(es[..|es| - 1], name)
  }

  predicate Cached(c: Cache, name: Name) { Lookup(c.entries, name).Some? }

  predicate Evicts(c: Cache, e: Event, name: Name) {
    && e.Put? && |e.data| <= ENTRY_SIZE && !Cached(c, e.name)
    && |c.entries| >= SLOTS && c.entries[Victim(c.entries)].name == name
  }

  /** The name's entry was displaced by a put of another name after its own latest put. */
  predicate Displaced(es: seq<Event>, name: Name) {
    es != [] &&
    var was := es[..|es| - 1];
    var e := es[|es| - 1];
    if (e.Put? && e.name == name && |e.data| <= ENTRY_SIZE) || (e.Invalidate? && e.name == name) || e.Flush? then false
    else Displaced(was, name) || Evicts(Run(was), e, name)
  }

  /** Hits since the name last entered the cache. */
  function Uses(es: seq<Event>, name: Name): nat {
    if es == [] then 0
    else
      var was := es[..|es| - 1];
      match es[|es| - 1]
      case Get(n) => Uses(was, name) + (if n == name then 1 else 0)
      case Put(n, d) => if n == name && |d| <= ENTRY_SIZE && !Cached(Run(was), n) then 0 else Uses(was, name)
      case _ => Uses(was, name)
  }

  /** Queries since the last flush that the history answers (or fails to answer). */
  function Queries(es: seq<Event>, found: bool): nat {
    if es == [] || es[|es| - 1].Flush? then 0
    else
      var was, e := es[..|es| - 1], es[|es| - 1];
      Queries(was, found) + (if e.Get? && (Latest(was, e.name).Some? && !Displaced(was, e.name)) == found then 1 else 0)
  }

  // ---- Slot-level facts ----

  ghost predicate Distinct(es: seq<Entry>) {
    |es| <= SLOTS && forall i, j | 0 <= i < j < |es| :: es[i].name != es[j].name
  }

  lemma FindAt(es: seq<Entry>, i: nat)
    requires Distinct(es) && i < |es|
    ensures Find(es, es[i].name) == i
  {
    var k := Find(es, es[i].name);
  }

  /** The entry a name has, if any. */
  function EntryOf(es: seq<Entry>, name: Name): Option<Entry> {
    var i := Find(es, name);
    if i < |es| then Some(es[i]) else None
  }

  lemma EntryOfMember(es: seq<Entry>, i: nat, name: Name)
    requires Distinct(es)
    ensures i < |es| && es[i].name == name ==> EntryOf(es, name) == Some(es[i])
  {
    if i < |es| && es[i].name == name { FindAt(es, i); }
  }

  lemma ReplaceAt(es: seq<Entry>, i: nat, e: Entry, name: Name)
    requires Distinct(es) && i < |es| && (e.name == es[i].name || Find(es, e.name) == |es|)
    ensures Distinct(es[i := e])
    ensures EntryOf(es[i := e], name) ==
      (if name == e.name then Some(e) else if name == es[i].name then None else EntryOf(es, name))
  {
    var r := es[i := e];
    assert Distinct(r);
    if name == e.name { EntryOfMember(r, i, name); }
    else {
      var k := Find(es, name);
      if name == es[i].name { FindAt(es, i); assert Find(r, name) == |r|; }
      else if k < |es| { EntryOfMember(r, k, name); }
      else { assert Find(r, name) == |r|; }
    }
  }

  lemma AppendNew(es: seq<Entry>, e: Entry, name: Name)
    requires Distinct(es) && |es| < SLOTS && Find(es, e.name) == |es|
    ensures Distinct(es + [e])
    ensures EntryOf(es + [e], name) == (if name == e.name then Some(e) else EntryOf(es, name))
  {
    var r := es + [e];
    assert Distinct(r);
    var k := Find(es, name);
    if name == e.name { EntryOfMember(r, |es|, name); }
    else if k < |es| { EntryOfMember(r, k, name); }
    else { assert Find(r, name) == |r|; }
  }

  lemma DropAt(es: seq<Entry>, gone: Name, name: Name)
    requires Distinct(es)
    ensures Distinct(Drop(es, gone))
    ensures EntryOf(Drop(es, gone), name) == (if name == gone then None else EntryOf(es, name))
  {
    var i := Find(es, gone);
    if i < |es| {
      var r := Without(es, i);
      WithoutDistinct(es, i);
      var k := Find(es, name);
      if name != gone && k < |es| {
        assert r[if k < i then k else k - 1] == es[k];
        EntryOfMember(r, if k < i then k else k - 1, name);
      } else {
        var j := Find(r, name);
        if j < |r| {
          WithoutAt(es, i, j);
          FindAt(es, if j < i then j else j + 1);
        }
      }
    }
  }

  lemma WithoutAt(es: seq<Entry>, i: nat, j: nat)
    requires i < |es| && j < |es| - 1
    ensures Without(es, i)[j] == es[if j < i then j else j + 1]
  {
  }

  lemma WithoutDistinct(es: seq<Entry>, i: nat)
    requires Distinct(es) && i < |es|
    ensures Distinct(Without(es, i))
  {
    forall a, b | 0 <= a < b < |es| - 1
      ensures Without(es, i)[a].name != Without(es, i)[b].name
    {
      WithoutAt(es, i, a);
      WithoutAt(es, i, b);
    }
  }

  // ---- The run theorem ----

  ghost predicate Agrees(es: seq<Event>, name: Name) {
    var o := EntryOf(Run(es).entries, name);
    && (o.Some? <==> Latest(es, name).Some? && !Displaced(es, name))
    && (o.Some? ==> Latest(es, name) == Some(o.value.data) && o.value.hits == Word(Uses(es, name)))
  }

  /** How one put changes the entry of every name. */
  lemma StoreEntry(es: seq<Entry>, n: Name, d: Bytes, name: Name)
    requires Distinct(es)
    ensures Distinct(Store(es, n, d))
    ensures EntryOf(Store(es, n, d), name) ==
      (if |d| > ENTRY_SIZE then EntryOf(es, name)
       else if name == n then Some(Entry(n, d, if EntryOf(es, n).Some? then EntryOf(es, n).value.hits else 0))
       else if EntryOf(es, n).None? && |es| == SLOTS && es[Victim(es)].name == name then None
       else EntryOf(es, name))
  {
    if |d| <= ENTRY_SIZE {
      var i := Find(es, n);
      if i < |es| { ReplaceAt(es, i, es[i].(data := d), name); }
      else if |es| < SLOTS { AppendNew(es, Entry(n, d, 0), name); }
      else { ReplaceAt(es, Victim(es), Entry(n, d, 0), name); }
    }
  }

  lemma TouchEntry(c: Cache, n: Name, name: Name)
    requires Distinct(c.entries)
    ensures Distinct(Touch(c, n).entries)
    ensures var o := EntryOf(c.entries, name);
      EntryOf(Touch(c, n).entries, name) ==
        (if name == n && o.Some? then Some(o.value.(hits := Inc(o.value.hits))) else o)
  {
    var i := Find(c.entries, n);
    if i < |c.entries| {
      ReplaceAt(c.entries, i, c.entries[i].(hits := Inc(c.entries[i].hits)), name);
    }
  }

  lemma {:induction false} RunDistinct(es: seq<Event>)
    ensures Distinct(Run(es).entries)
    decreases |es|
  {
    if es != [] {
      RunDistinct(es[..|es| - 1]);
      var c := Run(es[..|es| - 1]);
      match es[|es| - 1]
      case Get(n) => TouchEntry(c, n, n);
      case Put(n, d) => StoreEntry(c.entries, n, d, n);
      case Invalidate(n) => DropAt(c.entries, n, n);
      case Flush =>
    }
  }

  lemma GetAgrees(was: seq<Event>, es: seq<Event>, name: Name)
    requires es != [] && was == es[..|es| - 1] && es[|es| - 1].Get? && Distinct(Run(was).entries) && Agrees(was, name)
    ensures Agrees(es, name)
  {
    hide Word, Inc, Touch, Find;
    TouchEntry(Run(was), es[|es| - 1].name, name);
    IncWord(Uses(was, name), 0);
  }

  lemma PutAgrees(was: seq<Event>, es: seq<Event>, name: Name)
    requires es != [] && was == es[..|es| - 1] && es[|es| - 1].Put? && Distinct(Run(was).entries) && Agrees(was, name)
    ensures Agrees(es, name)
  {
    var c := Run(was);
    var e := es[|es| - 1];
    StoreEntry(c.entries, e.name, e.data, name);
    if |c.entries| > 0 { EntryOfMember(c.entries, Victim(c.entries), name); }
    assert Cached(c, e.name) <==> EntryOf(c.entries, e.name).Some?;
    hide Word, Store, Find, Distinct;
  }

  lemma DropAgrees(was: seq<Event>, es: seq<Event>, name: Name)
    requires es != [] && was == es[..|es| - 1] && es[|es| - 1].Invalidate? && Distinct(Run(was).entries)
    requires Agrees(was, name)
    ensures Agrees(es, name)
  {
    hide Word, Drop, Find;
    DropAt(Run(was).entries, es[|es| - 1].name, name);
  }

  /** In every run a name is cached exactly when its latest put is neither cancelled nor displaced,
      with exactly the bytes of that put and its use count modulo 2^32. */
  lemma {:induction false} CacheAgrees(es: seq<Event>, name: Name)
    ensures Distinct(Run(es).entries) && Agrees(es, name)
    decreases |es|
  {
    RunDistinct(es);
    if es != [] {
      hide Distinct, Evicts, Word;
      var was := es[..|es| - 1];
      CacheAgrees(was, name);
      match es[|es| - 1]
      case Get(_) => GetAgrees(was, es, name);
      case Put(_, _) => PutAgrees(was, es, name);
      case Invalidate(_) => DropAgrees(was, es, name);
      case Flush =>
    }
  }

  /** In every run at most 16 files of at most 4096 bytes are cached, and nothing before the first put. */
  lemma {:induction false} RunBounds(es: seq<Event>)
    ensures |Run(es).entries| <= 16 && forall e | e in Run(es).entries :: |e.data| <= 4096
    ensures (forall e | e in es :: !e.Put?) ==> Run(es).entries == []
    decreases |es|
  {
    if es != [] {
      var was := es[..|es| - 1];
      RunBounds(was);
      var c := Run(was);
      assert forall e | e in was :: e in es;
      assert forall e | e in c.entries :: |e.data| <= 4096;
    }
  }

  /** Right after a put of at most 4096 bytes a get returns them; a longer put changes nothing. */
  lemma PutIsFound(es: seq<Event>, n: Name, d: Bytes)
    ensures |d| <= 4096 ==> Lookup(Run(es + [Put(n, d)]).entries, n) == Some(d)
    ensures |d| > 4096 ==> Run(es + [Put(n, d)]) == Run(es)
  {
    var c := Run(es);
    assert (es + [Put(n, d)])[..|es|] == es;
    RunDistinct(es);
    if |d| <= 4096 { StoreEntry(c.entries, n, d, n); }
  }

  /** What a get returns after any history. */
  lemma HitReturnsLatest(es: seq<Event>, name: Name)
    ensures Lookup(Run(es).entries, name) == (if Displaced(es, name) then None else Latest(es, name))
  {
    CacheAgrees(es, name);
  }

  /** A put of a new name into a full cache displaces one entry only: no cached name has fewer uses
      (modulo 2^32), and every other name keeps its bytes. */
  lemma PutDisplacesLeast(es: seq<Event>, n: Name, d: Bytes, other: Name)
    requires |d| <= ENTRY_SIZE && !Cached(Run(es), n) && |Run(es).entries| == SLOTS
    ensures var c := Run(es); var after := Run(es + [Put(n, d)]); var v := Victim(c.entries);
      var out := c.entries[v].name;
      && Lookup(after.entries, n) == Some(d) && Lookup(after.entries, out) == None
      && (other != n && other != out ==> Lookup(after.entries, other) == Lookup(c.entries, other))
      && (Cached(c, other) ==> Word(Uses(es, out)) <= Word(Uses(es, other)))
      && (Cached(c, other) && Find(c.entries, other) < v ==> Word(Uses(es, out)) < Word(Uses(es, other)))
  {
    var c := Run(es);
    var out := c.entries[Victim(c.entries)].name;
    assert (es + [Put(n, d)])[..|es|] == es;
    RunDistinct(es);
    FindAt(c.entries, Victim(c.entries));
    CacheAgrees(es, out);
    CacheAgrees(es, other);
    StoreEntry(c.entries, n, d, n);
    StoreEntry(c.entries, n, d, out);
    StoreEntry(c.entries, n, d, other);
  }

  /** The two counters account for every query since the last flush, modulo 2^32. */
  lemma {:induction false} CountersAccount(es: seq<Event>)
    ensures Run(es).hits == Word(Queries(es, true)) && Run(es).misses == Word(Queries(es, false))
    decreases |es|
  {
    hide Word, Inc, Find, Store, Drop, Latest, Displaced, EntryOf;
    ZeroWord();
    if es != [] {
      var was, e := es[..|es| - 1], es[|es| - 1];
      CountersAccount(was);
      IncWord(Queries(was, true), 0);
      IncWord(Queries(was, false), 0);
      if e.Get? {
        CacheAgrees(was, e.name);
        FoundEntry(Run(was).entries, e.name);
      }
    }
  }

  lemma FoundEntry(es: seq<Entry>, name: Name)
    ensures EntryOf(es, name).Some? <==> Find(es, name) < |es|
  {
  }

  lemma ZeroWord()
    ensures Word(0) == 0
  {
  }

  ghost predicate InWords(es: seq<Entry>) { forall k | 0 <= k < |es| :: es[k].hits < WORD }

  lemma FewerHits(es: seq<Entry>, i: nat)
    requires i < |es| && InWords(es)
    ensures InWords(Without(es, i))
  {
    forall k | 0 <= k < |es| - 1 ensures Without(es, i)[k].hits < WORD {
      WithoutAt(es, i, k);
    }
  }

  // ---- The cache in place ----

  /** Entries between `i` and `j` hold their successors, the others are untouched. */
  ghost predicate MovedDown(s: seq<Entry>, was: seq<Entry>, i: nat, j: nat)
    requires i <= j < |was|
  {
    s == was[..i] + was[i + 1..j + 1] + was[j..]
  }

  lemma MoveDown(s: seq<Entry>, was: seq<Entry>, i: nat, j: nat)
    requires i <= j < |was| - 1 && MovedDown(s, was, i, j)
    ensures |s| == |was| && MovedDown(s[j := s[j + 1]], was, i, j + 1)
  {
  }

  lemma MovedAll(s: seq<Entry>, was: seq<Entry>, i: nat)
    requires i < |was| && MovedDown(s, was, i, |was| - 1)
    ensures |s| == |was| && s[..|was| - 1] == Without(was, i)
  {
  }

  class FileCache {
    const slots: array<Entry>
    var used: nat
    var hits: nat
    var misses: nat

    ghost predicate Valid()
      reads this, slots
    {
      slots.Length == SLOTS && used <= SLOTS && InWords(slots[..used])
    }

    ghost function View(): Cache
      requires Valid()
      reads this, slots
    {
      Cache(slots[..used], hits, misses)
    }

    constructor ()
      ensures Valid() && fresh(slots) && View() == Run([])
    {
      slots := new Entry[SLOTS](_ => Entry("", [], 0));
      used, hits, misses := 0, 0, 0;
    }

    method Init()
      requires Valid()
      modifies this, slots
      ensures Valid() && View() == Step(old(View()), Flush)
    {
      for i := 0 to SLOTS {
        slots[i] := Entry("", [], 0);
      }
      used, hits, misses := 0, 0, 0;
    }

    method IndexOf(name: Name) returns (i: nat)
      requires Valid()
      ensures i == Find(slots[..used], name)
    {
      i := 0;
      while i < used && slots[i].name != name
        invariant i <= used && forall k | 0 <= k < i :: slots[k].name != name
      {
        i := i + 1;
      }
      ghost var j := Find(slots[..used], name);
      assert j < used ==> slots[j].name == name;
    }

    method Fetch(name: Name) returns (r: Option<Bytes>)
      requires Valid()
      modifies this, slots
      ensures Valid() && View() == Step(old(View()), Get(name)) && r == Lookup(old(View()).entries, name)
    {
      var i := IndexOf(name);
      if i < used {
        var e := slots[i];
        slots[i] := e.(hits := Inc(e.hits));
        hits := Inc(hits);
        return Some(e.data);
      }
      misses := Inc(misses);
      return None;
    }

    /** The victim search starts from the largest word, which no count exceeds. */
    method LeastUsed() returns (v: nat)
      requires Valid() && used == SLOTS
      ensures v == Victim(slots[..used])
    {
      var least := 0xFFFF_FFFF;
      v := 0;
      for i := 0 to SLOTS
        invariant v < SLOTS
        invariant least == (if exists k | 0 <= k < i :: slots[k].hits < WORD - 1 then slots[v].hits else WORD - 1)
        invariant v == 0 || v < i
        invariant forall k | 0 <= k < i :: least <= slots[k].hits
        invariant forall k | 0 <= k < v :: least < slots[k].hits
      {
        if slots[i].hits < least {
          least, v := slots[i].hits, i;
        }
      }
    }

    method Save(name: Name, data: Bytes)
      requires Valid()
      modifies this, slots
      ensures Valid() && View() == Step(old(View()), Put(name, data))
    {
      if |data| > ENTRY_SIZE { return; }
      var i := IndexOf(name);
      if i < used {
        slots[i] := slots[i].(data := data);
      } else if used < SLOTS {
        slots[used] := Entry(name, data, 0);
        used := used + 1;
      } else {
        var v := LeastUsed();
        slots[v] := Entry(name, data, 0);
      }
    }

    /** The loop that moves every later entry down by one. */
    method ShiftFrom(i: nat)
      requires slots.Length == SLOTS && i < used <= SLOTS
      modifies slots
      ensures slots[..used - 1] == Without(old(slots[..used]), i)
    {
      ghost var n, was := used, slots[..used];
      var j := i;
      while j + 1 < used
        invariant i <= j < n == used == |was| <= slots.Length && MovedDown(slots[..n], was, i, j)
      {
        MoveDown(slots[..n], was, i, j);
        ghost var s := slots[..n];
        slots[j] := slots[j + 1];
        assert slots[..n] == s[j := s[j + 1]];
        j := j + 1;
      }
      assert slots[..n - 1] == slots[..n][..n - 1];
      MovedAll(slots[..n], was, i);
    }

    method Discard(name: Name)
      requires Valid()
      modifies this, slots
      ensures Valid() && View() == Step(old(View()), Invalidate(name))
    {
      var i := IndexOf(name);
      if i < used {
        ghost var was := slots[..used];
        FewerHits(was, i);
        hide InWords;
        ShiftFrom(i);
        used := used - 1;
      }
    }
  }
}
