/** Strings with a small buffer inside the object: who owns which heap buffer, and which allocator
    gives it back. */
module StringStorage {
  import opened Powers

  type Alloc = nat

  const LOCAL_CAPACITY := 15
  const NUL := '\0'

  /** What a type of allocator promises, and the longest string it allows. */
  datatype Traits = Traits(alwaysEqual: bool, onCopy: bool, onMove: bool, onSwap: bool, maxSize: nat)

  type Kind = k: Traits | LOCAL_CAPACITY <= k.maxSize < WORD / 2
    witness Traits(true, true, true, true, LOCAL_CAPACITY)

  predicate Same(k: Kind, a: Alloc, b: Alloc) {
    k.alwaysEqual || a == b
  }

  type Buffer = array<char>

  /** All memory given out: `live` records the allocator of every buffer not yet given back. */
  class Heap {
    const kind: Kind
    ghost var live: map<Buffer, Alloc>
    ghost var taken: set<Buffer>

    ghost predicate Valid()
      reads this
    {
      live.Keys <= taken
    }

    constructor (k: Kind)
      ensures kind == k && live == map[] && taken == {}
    {
      kind := k;
      live := map[];
      taken := {};
    }

    /** Storage that may be read and written: not a buffer that was given back. */
    ghost predicate Usable(b: Buffer)
      reads this
    {
      b in taken ==> b in live
    }

    /** Room for any number of characters, at least those asked for. */
    method Allocate(a: Alloc, n: nat) returns (b: Buffer)
      requires Valid() && n <= kind.maxSize + 1
      modifies this
      ensures Valid() && fresh(b) && n <= b.Length <= kind.maxSize + 1 && b !in old(taken)
      ensures live == old(live)[b := a] && taken == old(taken) + {b}
    {
      b := new char[n];
      live := live[b := a];
      taken := taken + {b};
    }

    /** A buffer goes back once, to an allocator equal to its own, with the size it came with. */
    method Deallocate(a: Alloc, b: Buffer, n: nat)
      requires Valid() && b in live && Same(kind, live[b], a) && n == b.Length
      modifies this
      ensures Valid() && live == old(live) - {b} && taken == old(taken)
    {
      live := live - {b};
    }
  }

  /** From one record to the next, nothing is gained or lost but what a group of strings owns. */
  ghost predicate Settled(before: map<Buffer, Alloc>, mine: set<Buffer>, after: map<Buffer, Alloc>, mine': set<Buffer>) {
    && after.Keys == (before.Keys - mine) + mine'
    && (forall b | b in before.Keys - mine :: b !in mine' && after[b] == before[b])
  }

  lemma Shorter(all: string, whole: string, n: nat)
    requires |all| == n + 1 <= |whole| && whole[..n + 1] == all
    ensures whole[n] == all[n] && whole[..n] == all[..n]
  {
    assert whole[..n] == whole[..n + 1][..n];
  }

  lemma Behind(a: string, b: string, whole: string)
    requires |a| + |b| <= |whole| && whole[..|a| + |b|] == a + b
    ensures whole[|a|..][..|b|] == b
  {
    assert whole[|a|..][..|b|] == whole[..|a| + |b|][|a|..];
  }

  lemma Joining(a: string, b: string, whole: string)
    requires |a| + |b| <= |whole| && whole[..|a|] == a && whole[|a|..][..|b|] == b
    ensures whole[..|a| + |b|] == a + b
  {
    assert whole[..|a| + |b|] == whole[..|a|] + whole[|a|..][..|b|];
  }

  class Str {
    var alloc: Alloc
    var data: Buffer
    var length: nat
    // The two share their storage; `large` says which of them it holds.
    const local: Buffer
    var capacity: nat
    ghost var large: bool

    predicate IsLocal()
      reads this
    {
      data == local
    }

    /** The capacity field can be read only while the shared storage holds it. */
    function Allocated(): nat
      reads this
      requires large
    {
      capacity
    }

    function Capacity(): nat
      reads this
      requires !IsLocal() ==> large
    {
      if IsLocal() then LOCAL_CAPACITY else Allocated()
    }

    /** The heap buffer of the string, if it has one. */
    ghost function Owned(): set<Buffer>
      reads this
    {
      if IsLocal() then {} else {data}
    }

    /** Storage for at most `Capacity()` characters, which allocator `a` can give back. */
    ghost predicate StoredFor(h: Heap, a: Alloc)
      reads this, h
    {
      && h.Valid()
      && local.Length == LOCAL_CAPACITY + 1
      && local !in h.taken
      && (!IsLocal() ==>
            && large && data in h.live && Same(h.kind, h.live[data], a)
            && data.Length == Allocated() + 1 && LOCAL_CAPACITY <= Allocated() <= h.kind.maxSize)
    }

    /** A text with its terminator, in such storage. */
    ghost predicate ValidFor(h: Heap, a: Alloc)
      reads this, h, data
    {
      && StoredFor(h, a)
      && (IsLocal() ==> !large)
      && length <= Capacity()
      && data[length] == NUL
    }

    ghost predicate Stored(h: Heap)
      reads this, h
    {
      StoredFor(h, alloc)
    }

    ghost predicate Valid(h: Heap)
      reads this, h, data
    {
      ValidFor(h, alloc)
    }

    ghost function Text(): string
      reads this, data
      requires length <= data.Length
    {
      data[..length]
    }

    /** Two strings that share no storage. */
    ghost predicate Apart(s: Str)
      reads this, s
    {
      local != s.local && data != s.data && data != s.local && local != s.data
    }

    /** An empty string. */
    constructor (h: Heap, a: Alloc)
      requires h.Valid()
      ensures Valid(h) && IsLocal() && Text() == "" && alloc == a && fresh(local)
    {
      var buf := new char[LOCAL_CAPACITY + 1];
      buf[0] := NUL;
      local := buf;
      data := buf;
      alloc := a;
      length := 0;
      large := false;
      capacity := 0;
    }

    // ----- the pieces every operation is made of -----

    method SetLength(h: Heap, n: nat)
      requires n < data.Length && h.Usable(data)
      modifies this`length, this`large, this`capacity, data
      ensures length == n && large == (old(large) && !IsLocal()) && (!IsLocal() ==> capacity == old(capacity))
      ensures data[n] == NUL && data[..n] == old(data[..n])
    {
      ghost var kept := data[..n];
      data[n] := NUL;
      assert data[..n] == kept;
      Written();
      length := n;
    }

    /** Copies characters that do not overlap the place they go to. */
    method Put(h: Heap, at: nat, src: Buffer, from: nat, n: nat)
      requires h.Usable(src) && h.Usable(data)
      requires at + n <= data.Length && from + n <= src.Length && (src == data ==> from + n <= at)
      modifies this`large, this`capacity, data
      ensures large == (old(large) && !IsLocal()) && (!IsLocal() ==> capacity == old(capacity))
      ensures data[..at + n] == old(data[..at]) + old(src[from..from + n]) && data[at + n..] == old(data[at + n..])
    {
      forall i | 0 <= i < n {
        data[at + i] := src[from + i];
      }
      Written();
      assert data[..at + n] == data[..at] + data[at..at + n];
    }

    /** Characters written inside the object take the place of the capacity. */
    method Written()
      modifies this`large, this`capacity
      ensures large == (old(large) && !IsLocal()) && (!IsLocal() ==> capacity == old(capacity))
    {
      if IsLocal() {
        large := false;
        capacity := *;
      }
    }

    /** The capacity takes the place of the characters inside the object. */
    method SetCapacity(n: nat)
      requires !IsLocal()
      modifies this`capacity, this`large, local
      ensures capacity == n && large
    {
      for i := 0 to local.Length {
        local[i] := *;
      }
      capacity := n;
      large := true;
    }

    /** Turns to the buffer inside the object. */
    method UseLocal()
      modifies this`data, this`large
      ensures data == local && !large
    {
      data := local;
      large := false;
    }

    /** Gives back the heap buffer. */
    method Destroy(h: Heap)
      requires Stored(h) && !IsLocal()
      modifies h
      ensures h.Valid() && h.live == old(h.live) - {data} && h.taken == old(h.taken)
    {
      h.Deallocate(alloc, data, Allocated() + 1);
    }

    /** The end of a string. */
    method Dispose(h: Heap)
      requires Stored(h)
      modifies h
      ensures h.Valid() && h.live == old(h.live) - Owned() && h.taken == old(h.taken)
    {
      if !IsLocal() {
        Destroy(h);
      }
    }

    /** Takes a fresh buffer of at least the wanted capacity, and of twice the old one if that is
        allowed. */
    method CreatePlus(h: Heap, wanted: nat, have: nat) returns (b: Buffer)
      requires h.Valid() && wanted <= h.kind.maxSize
      modifies h
      ensures h.Valid() && fresh(b) && wanted < b.Length <= h.kind.maxSize + 1 && b !in old(h.taken)
      ensures h.live == old(h.live)[b := alloc] && h.taken == old(h.taken) + {b}
      ensures wanted > have ==> b.Length > 2 * have || b.Length > h.kind.maxSize
    {
      var c := wanted;
      if c > have && c < 2 * have {
        c := 2 * have;
        if c > h.kind.maxSize {
          c := h.kind.maxSize;
        }
      }
      b := h.Allocate(alloc, c + 1);
    }

    /** Gives back the old storage and turns to a new buffer. */
    method SwitchTo(h: Heap, b: Buffer)
      requires Stored(h) && b in h.live && h.live[b] == alloc && b != data && LOCAL_CAPACITY < b.Length <= h.kind.maxSize + 1
      modifies h, this`data, this`capacity, this`large, local
      ensures Stored(h) && data == b && !IsLocal() && capacity == b.Length - 1
      ensures h.live == old(h.live) - old(Owned()) && h.taken == old(h.taken)
    {
      Dispose(h);
      data := b;
      SetCapacity(b.Length - 1);
    }

    /** Makes room for `size` characters, losing the old ones if it has to move. */
    method MakeRoom(h: Heap, size: nat)
      requires Valid(h) && size <= h.kind.maxSize
      modifies h, this, local
      ensures Stored(h) && size <= Capacity() && alloc == old(alloc)
      ensures fresh(Owned() - old(Owned())) && Settled(old(h.live), old(Owned()), h.live, Owned())
      ensures h.taken >= old(h.taken) && fresh(h.taken - old(h.taken))
    {
      if size > Capacity() {
        var b := CreatePlus(h, size, Capacity());
        SwitchTo(h, b);
      }
    }

    /** Becomes a copy of `n` characters, for which there is room. */
    method Fill(h: Heap, src: Buffer, n: nat)
      requires Stored(h) && n <= Capacity() && n <= src.Length && src != data && h.Usable(src)
      modifies this`length, this`large, this`capacity, data
      ensures Valid(h) && Text() == old(src[..n])
    {
      if n > 0 {
        Put(h, 0, src, 0, n);
      }
      SetLength(h, n);
    }

    /** Copies the text of another string, in storage of its own. */
    method AssignText(h: Heap, str: Str)
      requires Valid(h) && str.Valid(h) && (str != this ==> Apart(str))
      modifies h, this, data, local
      ensures Valid(h) && str.Valid(h) && (str != this ==> Apart(str))
      ensures Text() == old(str.Text()) && alloc == old(alloc)
      ensures fresh(Owned() - old(Owned())) && Settled(old(h.live), old(Owned()), h.live, Owned())
      ensures h.taken >= old(h.taken) && fresh(h.taken - old(h.taken))
    {
      if this != str {
        MakeRoom(h, str.length);
        Fill(h, str.data, str.length);
      }
    }

    // ----- construction -----

    /** A string of given characters. */
    constructor FromText(h: Heap, text: string, a: Alloc)
      requires h.Valid() && |text| <= h.kind.maxSize
      modifies h
      ensures Valid(h) && fresh(local) && Text() == text && alloc == a
      ensures fresh(Owned()) && Settled(old(h.live), {}, h.live, Owned())
      ensures h.taken >= old(h.taken) && fresh(h.taken - old(h.taken))
    {
      local := new char[LOCAL_CAPACITY + 1];
      data := local;
      alloc := a;
      length := 0;
      capacity := 0;
      large := false;
      new;
      var src := new char[|text|](i requires 0 <= i < |text| => text[i]);
      assert src[0..|text|] == text;
      Construct(h, src, 0, |text|);
    }

    /** Fills the storage of a string that does not exist yet. */
    method Construct(h: Heap, src: Buffer, from: nat, n: nat)
      requires h.Valid() && IsLocal() && local.Length == LOCAL_CAPACITY + 1 && local !in h.taken
      requires n <= h.kind.maxSize && from + n <= src.Length && src != local && h.Usable(src)
      modifies h, this, local
      ensures Valid(h) && alloc == old(alloc) && Text() == old(src[from..from + n])
      ensures fresh(Owned()) && Settled(old(h.live), {}, h.live, Owned())
      ensures h.taken >= old(h.taken) && fresh(h.taken - old(h.taken))
    {
      if n > LOCAL_CAPACITY {
        var b := CreatePlus(h, n, 0);
        data := b;
        SetCapacity(b.Length - 1);
      } else {
        UseLocal();
      }
      Put(h, 0, src, from, n);
      SetLength(h, n);
    }

    /** Takes over the buffer of another string, which becomes empty. */
    method Steal(h: Heap, str: Str)
      requires str.Valid(h) && !str.IsLocal() && Same(h.kind, str.alloc, alloc)
      requires str != this && IsLocal() && local != str.local && local.Length == LOCAL_CAPACITY + 1 && local !in h.taken
      modifies this, local, str, str.local
      ensures Valid(h) && str.Valid(h) && str.IsLocal() && alloc == old(alloc) && str.alloc == old(str.alloc)
      ensures data == old(str.data) && Text() == old(str.Text()) && str.Text() == ""
    {
      data := str.data;
      length := str.length;
      SetCapacity(str.Allocated());
      str.UseLocal();
      str.SetLength(h, 0);
    }

    /** Copies the buffer inside another string. */
    method CopyLocal(h: Heap, str: Str)
      requires str.Valid(h) && str.IsLocal()
      requires IsLocal() && local != str.local && local.Length == LOCAL_CAPACITY + 1 && local !in h.taken && h.Valid()
      modifies this`length, this`large, this`capacity, local
      ensures Valid(h) && Text() == old(str.Text())
    {
      Put(h, 0, str.local, 0, str.length + 1);
      large := false;
      length := str.length;
      Shorter(old(str.local[..str.length + 1]), data[..], length);
    }

    /** A copy with a given allocator. */
    constructor CopyOf(h: Heap, str: Str, a: Alloc)
      requires str.Valid(h)
      modifies h
      ensures Valid(h) && str.Valid(h) && Apart(str) && fresh(local)
      ensures Text() == str.Text() && alloc == a
      ensures fresh(Owned()) && Settled(old(h.live), {}, h.live, Owned())
      ensures h.taken >= old(h.taken) && fresh(h.taken - old(h.taken))
    {
      local := new char[LOCAL_CAPACITY + 1];
      data := local;
      alloc := a;
      length := 0;
      capacity := 0;
      large := false;
      new;
      Construct(h, str.data, 0, str.length);
    }

    /** Moves the characters, or the buffer that holds them, out of another string. */
    constructor Moved(h: Heap, str: Str)
      requires str.Valid(h)
      modifies str, str.local
      ensures Valid(h) && str.Valid(h) && Apart(str) && fresh(local)
      ensures Text() == old(str.Text()) && alloc == old(str.alloc)
      ensures str.Text() == "" && str.alloc == old(str.alloc) && str.IsLocal()
      ensures Owned() == old(str.Owned())
    {
      local := new char[LOCAL_CAPACITY + 1];
      data := local;
      alloc := str.alloc;
      length := 0;
      capacity := 0;
      large := false;
      new;
      if str.IsLocal() {
        CopyLocal(h, str);
        str.UseLocal();
        str.SetLength(h, 0);
      } else {
        Steal(h, str);
      }
    }

    /** The same with a given allocator: only an equal one can take over the buffer, with another the
        source is copied and keeps its text. */
    constructor MovedWith(h: Heap, str: Str, a: Alloc)
      requires str.Valid(h)
      modifies h, str, str.local
      ensures Valid(h) && str.Valid(h) && Apart(str) && fresh(local)
      ensures Text() == old(str.Text()) && alloc == a
      ensures str.Text() == (if old(str.IsLocal()) || Same(h.kind, old(str.alloc), a) then "" else old(str.Text()))
      ensures str.alloc == old(str.alloc)
      ensures fresh(Owned() - old(str.Owned())) && str.Owned() <= old(str.Owned())
      ensures Settled(old(h.live), old(str.Owned()), h.live, Owned() + str.Owned())
      ensures h.taken >= old(h.taken) && fresh(h.taken - old(h.taken))
    {
      local := new char[LOCAL_CAPACITY + 1];
      data := local;
      alloc := a;
      length := 0;
      capacity := 0;
      large := false;
      new;
      if str.IsLocal() {
        CopyLocal(h, str);
        str.SetLength(h, 0);
      } else if Same(h.kind, str.alloc, a) {
        Steal(h, str);
      } else {
        Construct(h, str.data, 0, str.length);
      }
    }

    /** A string from `n` characters of another that is given up, from `pos` on: a long part takes over
        the buffer and slides to its front. */
    constructor MovedPart(h: Heap, str: Str, pos: nat, n: nat, a: Alloc)
      requires str.Valid(h) && pos + n <= str.length
      modifies h, str, str.local, str.data
      ensures Valid(h) && str.Valid(h) && Apart(str) && fresh(local)
      ensures Text() == old(str.Text()[pos..pos + n]) && alloc == a
      ensures str.Text() == (if n > LOCAL_CAPACITY && Same(h.kind, old(str.alloc), a) then "" else old(str.Text()))
      ensures str.alloc == old(str.alloc)
      ensures fresh(Owned() - old(str.Owned())) && str.Owned() <= old(str.Owned())
      ensures Settled(old(h.live), old(str.Owned()), h.live, Owned() + str.Owned())
      ensures h.taken >= old(h.taken) && fresh(h.taken - old(h.taken))
    {
      local := new char[LOCAL_CAPACITY + 1];
      data := local;
      alloc := a;
      length := 0;
      capacity := 0;
      large := false;
      new;
      if n <= LOCAL_CAPACITY || !Same(h.kind, str.alloc, a) {
        CopyPart(h, str, pos, n);
      } else {
        StealPart(h, str, pos, n);
      }
    }

    method CopyPart(h: Heap, str: Str, pos: nat, n: nat)
      requires str.Valid(h) && pos + n <= str.length && str != this && local != str.local && local != str.data
      requires IsLocal() && local.Length == LOCAL_CAPACITY + 1 && local !in h.taken
      modifies h, this, local
      ensures Valid(h) && str.Valid(h) && alloc == old(alloc)
      ensures Text() == old(str.Text()[pos..pos + n]) && str.Text() == old(str.Text())
      ensures fresh(Owned()) && Settled(old(h.live), {}, h.live, Owned())
      ensures h.taken >= old(h.taken) && fresh(h.taken - old(h.taken))
    {
      assert str.data[pos..pos + n] == str.Text()[pos..pos + n];
      Construct(h, str.data, pos, n);
    }

    method StealPart(h: Heap, str: Str, pos: nat, n: nat)
      requires str.Valid(h) && !str.IsLocal() && Same(h.kind, str.alloc, alloc) && pos + n <= str.length
      requires str != this && IsLocal() && local != str.local && local.Length == LOCAL_CAPACITY + 1 && local !in h.taken
      modifies this, local, str, str.local, str.data
      ensures Valid(h) && str.Valid(h) && str.IsLocal() && alloc == old(alloc) && str.alloc == old(str.alloc)
      ensures data == old(str.data) && Text() == old(str.Text()[pos..pos + n]) && str.Text() == ""
    {
      Steal(h, str);
      SlideDown(h, pos, n);
    }

    /** Moves `n` characters to the front, over whatever they overlap, and drops the rest. */
    method SlideDown(h: Heap, pos: nat, n: nat)
      requires Valid(h) && !IsLocal() && pos + n <= length
      modifies this`length, this`large, this`capacity, data
      ensures Valid(h) && Text() == old(Text()[pos..pos + n])
    {
      forall i | 0 <= i < n {
        data[i] := data[pos + i];
      }
      assert data[..n] == old(data[pos..pos + n]);
      SetLength(h, n);
      assert Text() == old(data[pos..pos + n]);
    }

    // ----- assignment -----

    /** Move assignment. */
    method MoveAssign(h: Heap, str: Str)
      requires Valid(h) && str.Valid(h) && (str != this ==> Apart(str))
      modifies h, this, data, local, str, str.data, str.local
      ensures Valid(h) && str.Valid(h) && (str != this ==> Apart(str))
      ensures Text() == (if str == this then "" else old(str.Text())) && str.Text() == ""
      ensures alloc == (if h.kind.onMove then old(str.alloc) else old(alloc))
      ensures str != this ==> str.alloc == old(str.alloc)
      ensures fresh((Owned() + str.Owned()) - old(Owned() + str.Owned()))
      ensures Settled(old(h.live), old(Owned() + str.Owned()), h.live, Owned() + str.Owned())
      ensures h.taken >= old(h.taken) && fresh(h.taken - old(h.taken))
    {
      var equal := Same(h.kind, alloc, str.alloc);
      TakeAllocator(h, str);
      MoveContents(h, str, h.kind.onMove || equal);
    }

    /** A move takes the allocator along, if its type wants that. */
    method TakeAllocator(h: Heap, str: Str)
      requires Valid(h) && str.Valid(h) && (str != this ==> Apart(str))
      modifies h, this, local
      ensures Valid(h) && str.Valid(h) && (str != this ==> Apart(str)) && h.taken == old(h.taken)
      ensures str.Text() == old(str.Text()) && str.alloc == old(str.alloc)
      ensures alloc == (if h.kind.onMove then str.alloc else old(alloc))
      ensures Owned() + str.Owned() <= old(Owned() + str.Owned())
      ensures Settled(old(h.live), old(Owned() + str.Owned()), h.live, Owned() + str.Owned())
    {
      if h.kind.onMove {
        AdoptAllocator(h, str.alloc);
      }
    }

    /** Empties a string, which keeps its storage. */
    method Clear(h: Heap)
      requires Stored(h) && (IsLocal() ==> !large)
      modifies this`length, this`large, this`capacity, data
      ensures Valid(h) && Text() == ""
    {
      SetLength(h, 0);
    }

    /** Moves the text; `free` says that this string can free the buffer of the other. */
    method MoveContents(h: Heap, str: Str, free: bool)
      requires Valid(h) && str.Valid(h) && (str != this ==> Apart(str))
      requires free ==> Same(h.kind, alloc, str.alloc)
      modifies h, this, data, local, str, str.data, str.local
      ensures Valid(h) && str.Valid(h) && (str != this ==> Apart(str))
      ensures Text() == (if str == this then "" else old(str.Text())) && str.Text() == ""
      ensures alloc == old(alloc) && str.alloc == old(str.alloc)
      ensures fresh((Owned() + str.Owned()) - old(Owned() + str.Owned()))
      ensures Settled(old(h.live), old(Owned() + str.Owned()), h.live, Owned() + str.Owned())
      ensures h.taken >= old(h.taken) && fresh(h.taken - old(h.taken))
    {
      MoveText(h, str, free);
      str.Clear(h);
    }

    /** The text and the storage change hands; the other string is not emptied yet. */
    method MoveText(h: Heap, str: Str, free: bool)
      requires Valid(h) && str.Valid(h) && (str != this ==> Apart(str))
      requires free ==> Same(h.kind, alloc, str.alloc)
      modifies h, this, data, local, str, str.local
      ensures Valid(h) && str.Stored(h) && (str.IsLocal() ==> !str.large) && (str != this ==> Apart(str))
      ensures Text() == old(str.Text())
      ensures alloc == old(alloc) && str.alloc == old(str.alloc)
      ensures fresh((Owned() + str.Owned()) - old(Owned() + str.Owned()))
      ensures Settled(old(h.live), old(Owned() + str.Owned()), h.live, Owned() + str.Owned())
      ensures h.taken >= old(h.taken) && fresh(h.taken - old(h.taken))
    {
      if str.IsLocal() {
        if str != this {
          Fill(h, str.data, str.length);
        }
      } else if free {
        TakeBuffer(h, str);
      } else {
        AssignText(h, str);
      }
    }

    /** Changes the allocator, after giving back a buffer that only the old one can take. */
    method AdoptAllocator(h: Heap, a: Alloc)
      requires Valid(h)
      modifies h, this, local
      ensures Valid(h) && alloc == a && h.taken == old(h.taken)
      ensures data == (if Same(h.kind, old(alloc), a) then old(data) else local)
      ensures data == old(data) ==> Text() == old(Text())
      ensures Owned() <= old(Owned()) && Settled(old(h.live), old(Owned()), h.live, Owned())
    {
      if !IsLocal() && !Same(h.kind, alloc, a) {
        Destroy(h);
        data := local;
        SetLength(h, 0);
      }
      alloc := a;
    }

    /** Takes over a buffer, giving the own one in exchange. */
    method TakeBuffer(h: Heap, str: Str)
      requires Valid(h) && str.Valid(h) && (str != this ==> Apart(str))
      requires !str.IsLocal() && Same(h.kind, alloc, str.alloc)
      modifies this, local, str, str.local
      ensures data == old(str.data) && length == old(str.length) && alloc == old(alloc)
      ensures str.data == if str == this || old(!IsLocal()) then old(data) else str.local
      ensures str != this ==> str.alloc == old(str.alloc)
      ensures Stored(h) && str.Stored(h) && large && (str.IsLocal() ==> !str.large)
    {
      var kept: array?<char> := null;
      var cap := 0;
      if !IsLocal() {
        kept := data;
        cap := Allocated();
      }
      data := str.data;
      length := str.length;
      SetCapacity(str.Allocated());
      if kept != null {
        str.data := kept;
        str.SetCapacity(cap);
      } else {
        str.UseLocal();
      }
    }

    /** Copy assignment. */
    method Assign(h: Heap, str: Str)
      requires Valid(h) && str.Valid(h) && (str != this ==> Apart(str))
      modifies h, this, data, local
      ensures Valid(h) && str.Valid(h) && (str != this ==> Apart(str))
      ensures Text() == old(str.Text()) && alloc == (if h.kind.onCopy then old(str.alloc) else old(alloc))
      ensures fresh(Owned() - old(Owned())) && Settled(old(h.live), old(Owned()), h.live, Owned())
      ensures h.taken >= old(h.taken) && fresh(h.taken - old(h.taken))
    {
      if h.kind.onCopy {
        CopyAllocator(h, str);
      }
      AssignText(h, str);
    }

    /** Changes the allocator, after giving back a buffer that only the old one can take; if the text
        to come needs a buffer, the new one is there before the old one goes. */
    method CopyAllocator(h: Heap, str: Str)
      requires Valid(h) && str.Valid(h) && (str != this ==> Apart(str))
      modifies h, this, local
      ensures Valid(h) && str.Valid(h) && (str != this ==> Apart(str)) && alloc == old(str.alloc)
      ensures str.Text() == old(str.Text())
      ensures data == old(data) || data == local || fresh(data)
      ensures fresh(Owned() - old(Owned())) && Settled(old(h.live), old(Owned()), h.live, Owned())
      ensures h.taken >= old(h.taken) && fresh(h.taken - old(h.taken))
    {
      if !IsLocal() && !Same(h.kind, alloc, str.alloc) && str.length > LOCAL_CAPACITY {
        ReplaceBuffer(h, str.length, str.alloc);
      } else {
        AdoptAllocator(h, str.alloc);
      }
    }

    /** Changes the allocator, replacing the buffer by one from the new allocator. */
    method ReplaceBuffer(h: Heap, n: nat, a: Alloc)
      requires Valid(h) && !IsLocal() && LOCAL_CAPACITY < n <= h.kind.maxSize
      modifies h, this, local
      ensures Valid(h) && alloc == a && fresh(data) && !IsLocal()
      ensures h.live == (old(h.live) - {old(data)})[data := a] && h.taken == old(h.taken) + {data}
      ensures old(data) != data && data !in old(h.taken)
    {
      var b := h.Allocate(a, n + 1);
      Destroy(h);
      data := b;
      SetCapacity(b.Length - 1);
      alloc := a;
      SetLength(h, n);
    }

    /** Makes sure that the capacity is at least `n`. */
    method Reserve(h: Heap, n: nat)
      requires Valid(h) && n <= h.kind.maxSize
      modifies h, this, local
      ensures Valid(h) && Text() == old(Text()) && alloc == old(alloc) && n <= Capacity()
      ensures n <= old(Capacity()) ==> data == old(data) && h.live == old(h.live)
      ensures n > old(Capacity()) ==> !IsLocal()
      ensures fresh(Owned() - old(Owned())) && Settled(old(h.live), old(Owned()), h.live, Owned())
      ensures h.taken >= old(h.taken) && fresh(h.taken - old(h.taken))
    {
      if n > Capacity() {
        var b := CreatePlus(h, n, Capacity());
        CopyTo(h, b);
        SwitchTo(h, b);
      }
    }

    /** Copies the text and its terminator to another buffer. */
    method CopyTo(h: Heap, b: Buffer)
      requires Valid(h) && h.Usable(b) && b != data && length < b.Length
      modifies b
      ensures b[..length] == Text() && b[length] == NUL
    {
      forall i | 0 <= i <= length {
        b[i] := data[i];
      }
    }

    /** Appends `n` characters that may lie in this very string. Says no, and changes nothing, if the
        result would be too long. */
    method AppendRange(h: Heap, src: Buffer, from: nat, n: nat) returns (ok: bool)
      requires Valid(h) && from + n <= src.Length < WORD && h.Usable(src)
      requires if src == data then from + n <= length else src != local
      modifies h, this, data, local
      ensures ok == (old(length) + n <= h.kind.maxSize)
      ensures Valid(h) && alloc == old(alloc)
      ensures Text() == if ok then old(Text() + src[from..from + n]) else old(Text())
      ensures !ok ==> data == old(data) && h.live == old(h.live) && h.taken == old(h.taken)
      ensures fresh(Owned() - old(Owned())) && Settled(old(h.live), old(Owned()), h.live, Owned())
      ensures h.taken >= old(h.taken) && fresh(h.taken - old(h.taken))
    {
      var newlen := (length + n) % WORD;
      if Capacity() - length >= n {
        AppendHere(h, src, from, n, newlen);
        return true;
      }
      if h.kind.maxSize - length < n {
        return false;
      }
      var s := Joined(h, src, from, n, newlen);
      TakeOver(h, s, newlen);
      s.Dispose(h);
      return true;
    }

    method AppendHere(h: Heap, src: Buffer, from: nat, n: nat, newlen: nat)
      requires Valid(h) && from + n <= src.Length && h.Usable(src) && (src == data ==> from + n <= length)
      requires newlen == length + n <= Capacity()
      modifies this`length, this`large, this`capacity, data
      ensures Valid(h) && Text() == old(Text() + src[from..from + n])
    {
      Put(h, length, src, from, n);
      SetLength(h, newlen);
    }

    /** A new string with room for the old text and the new: they are copied while both still exist. */
    method Joined(h: Heap, src: Buffer, from: nat, n: nat, newlen: nat) returns (s: Str)
      requires Valid(h) && from + n <= src.Length && h.Usable(src)
      requires newlen == length + n && Capacity() < newlen <= h.kind.maxSize
      modifies h
      ensures fresh(s) && fresh(s.data) && fresh(s.local) && s.Stored(h) && !s.IsLocal() && s.alloc == alloc
      ensures newlen <= s.Allocated() && s.data[..newlen] == Text() + src[from..from + n]
      ensures Settled(old(h.live), {}, h.live, {s.data}) && s.data !in old(h.taken)
      ensures h.taken >= old(h.taken) && fresh(h.taken - old(h.taken)) && s.local !in old(h.taken)
    {
      s := new Str(h, alloc);
      s.Reserve(h, newlen);
      s.Lay(h, src, from, n, data, length);
    }

    /** Writes the `n` new characters behind the place of the `size` old ones, then those. */
    method Lay(h: Heap, src: Buffer, from: nat, n: nat, own: Buffer, size: nat)
      requires h.Usable(src) && h.Usable(own) && h.Usable(data) && src != data && own != data
      requires from + n <= src.Length && size <= own.Length && size + n <= data.Length
      modifies this`large, this`capacity, data
      ensures large == (old(large) && !IsLocal()) && (!IsLocal() ==> capacity == old(capacity))
      ensures data[..size + n] == old(own[..size] + src[from..from + n])
    {
      ghost var was, first, second := data[..size], own[0..size], src[from..from + n];
      Put(h, size, src, from, n);
      Behind(was, second, data[..]);
      ghost var tail := data[size..];
      Put(h, 0, own, 0, size);
      assert data[size..] == tail && data[..size] == data[..0] + first;
      Joining(first, second, data[..]);
    }

    /** Takes over the buffer of a temporary string, giving back the own one. */
    method TakeOver(h: Heap, s: Str, n: nat)
      requires Stored(h) && s != this && s.Stored(h) && !s.IsLocal() && s.alloc == alloc && n <= s.Allocated()
      requires data != s.data && local != s.local && s.local != data
      modifies h, this, local, s, s.data, s.local
      ensures Valid(h) && data == old(s.data) && alloc == old(alloc) && Text() == old(s.data[..n])
      ensures s.IsLocal() && s.Stored(h)
      ensures h.live == old(h.live) - old(Owned()) && h.taken == old(h.taken)
    {
      if !IsLocal() {
        Destroy(h);
      }
      data := s.data;
      SetCapacity(s.Allocated());
      s.UseLocal();
      SetLength(h, n);
    }

    // ----- exchange -----

    /** Exchanges two strings whose allocators are equal, or are exchanged with them. */
    method Swap(h: Heap, s: Str)
      requires Valid(h) && s.Valid(h) && (s != this ==> Apart(s))
      requires h.kind.onSwap || Same(h.kind, alloc, s.alloc)
      modifies this, local, s, s.local
      ensures Valid(h) && s.Valid(h) && (s != this ==> Apart(s))
      ensures Text() == old(s.Text()) && s.Text() == old(Text())
      ensures h.kind.onSwap ==> alloc == old(s.alloc) && s.alloc == old(alloc)
      ensures !h.kind.onSwap ==> alloc == old(alloc) && s.alloc == old(s.alloc)
      ensures Owned() == old(s.Owned()) && s.Owned() == old(Owned())
    {
      if this == s {
        return;
      }
      ghost var mine, yours := alloc, s.alloc;
      if h.kind.onSwap {
        alloc, s.alloc := s.alloc, alloc;
      }
      SwapStorage(h, s, mine, yours);
    }

    /** Exchanges all but the allocators. */
    method SwapStorage(h: Heap, s: Str, ghost a: Alloc, ghost b: Alloc)
      requires ValidFor(h, a) && s.ValidFor(h, b) && Apart(s)
      modifies this`data, this`length, this`capacity, this`large, local
      modifies s`data, s`length, s`capacity, s`large, s.local
      ensures ValidFor(h, b) && s.ValidFor(h, a) && Apart(s)
      ensures Text() == old(s.Text()) && s.Text() == old(Text())
      ensures Owned() == old(s.Owned()) && s.Owned() == old(Owned())
    {
      if IsLocal() && s.IsLocal() {
        SwapInside(h, s, a, b);
      } else if IsLocal() {
        Receive(h, s, a, b);
      } else if s.IsLocal() {
        s.Receive(h, this, b, a);
      } else {
        SwapOutside(h, s, a, b);
      }
    }

    /** Copies into the buffer inside the object. */
    method PutLocal(src: Buffer, n: nat)
      requires src != local && n <= local.Length && n <= src.Length
      modifies this`large, this`capacity, local
      ensures !large && local[..n] == old(src[..n])
    {
      forall i | 0 <= i < n {
        local[i] := src[i];
      }
      large := false;
      capacity := *;
    }

    /** Exchanges what two strings hold inside themselves. */
    method SwapInside(h: Heap, s: Str, ghost a: Alloc, ghost b: Alloc)
      requires IsLocal() && s.IsLocal() && ValidFor(h, a) && s.ValidFor(h, b) && Apart(s)
      modifies this`length, this`large, this`capacity, local, s`length, s`large, s`capacity, s.local
      ensures ValidFor(h, b) && s.ValidFor(h, a)
      ensures Text() == old(s.Text()) && s.Text() == old(Text())
    {
      if length > 0 && s.length > 0 {
        SwapTexts(h, s, a, b);
      } else if s.length > 0 {
        s.MoveInside(h, this, b, a);
      } else if length > 0 {
        MoveInside(h, s, a, b);
      }
    }

    /** By way of a third buffer. */
    method SwapTexts(h: Heap, s: Str, ghost a: Alloc, ghost b: Alloc)
      requires IsLocal() && s.IsLocal() && ValidFor(h, a) && s.ValidFor(h, b) && Apart(s)
      modifies this`length, this`large, this`capacity, local, s`length, s`large, s`capacity, s.local
      ensures ValidFor(h, b) && s.ValidFor(h, a)
      ensures Text() == old(s.Text()) && s.Text() == old(Text())
    {
      ghost var mine, yours := local[..length + 1], s.local[..s.length + 1];
      var tmp := new char[LOCAL_CAPACITY + 1];
      forall i | 0 <= i <= s.length {
        tmp[i] := s.local[i];
      }
      assert tmp[..s.length + 1] == yours;
      s.PutLocal(local, length + 1);
      PutLocal(tmp, s.length + 1);
      Shorter(mine, s.local[..], length);
      Shorter(yours, local[..], s.length);
      length, s.length := s.length, length;
    }

    /** Moves characters to an empty string. */
    method MoveInside(h: Heap, s: Str, ghost a: Alloc, ghost b: Alloc)
      requires IsLocal() && s.IsLocal() && ValidFor(h, a) && s.ValidFor(h, b) && Apart(s) && s.length == 0
      modifies this`length, this`large, this`capacity, local, s`length, s`large, s`capacity, s.local
      ensures ValidFor(h, b) && s.ValidFor(h, a)
      ensures Text() == old(s.Text()) && s.Text() == old(Text())
    {
      ghost var mine := local[..length + 1];
      s.PutLocal(local, length + 1);
      s.length := length;
      SetLength(h, 0);
      assert s.Text() == mine[..s.length];
    }

    /** Gets the buffer of `s` for the characters inside this one. The capacity of `s` has to be read
        before the characters overwrite it. */
    method Receive(h: Heap, s: Str, ghost a: Alloc, ghost b: Alloc)
      requires ValidFor(h, a) && IsLocal() && s.ValidFor(h, b) && !s.IsLocal() && Apart(s)
      modifies this`data, this`capacity, this`large, this`length, local, s`data, s`capacity, s`large, s`length, s.local
      ensures ValidFor(h, b) && s.ValidFor(h, a)
      ensures data == old(s.data) && s.data == s.local
      ensures Text() == old(s.Text()) && s.Text() == old(Text())
    {
      ghost var mine := local[..length + 1];
      var cap := s.Allocated();
      s.PutLocal(local, length + 1);
      data := s.data;
      s.data := s.local;
      SetCapacity(cap);
      length, s.length := s.length, length;
      assert s.Text() == mine[..s.length];
    }

    /** Exchanges the buffers of two strings. */
    method SwapOutside(h: Heap, s: Str, ghost a: Alloc, ghost b: Alloc)
      requires ValidFor(h, a) && !IsLocal() && s.ValidFor(h, b) && !s.IsLocal() && Apart(s)
      modifies this`data, this`capacity, this`large, this`length, local, s`data, s`capacity, s`large, s`length, s.local
      ensures ValidFor(h, b) && s.ValidFor(h, a)
      ensures data == old(s.data) && s.data == old(data)
      ensures length == old(s.length) && s.length == old(length)
    {
      var cap := Allocated();
      data, s.data := s.data, data;
      SetCapacity(s.Allocated());
      s.SetCapacity(cap);
      length, s.length := s.length, length;
    }
  }
}
