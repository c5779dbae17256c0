/** The buffer pool of server/src/io_buffer.cpp: a free list for every size class, kept here as a
    sequence, buffers taken from the front when lent and put there when given back. */
module BufferPool {
  import opened IoBuffers

  /** In kibibytes. */
  const MEMORY_LIMIT := 5 * 1024 * 1024

  predicate IsClass(c: nat) {
    c == 4096 || c == 16384 || c == 65536 || c == 262144 || c == 1048576 || c == 4194304 || c == 8388608
  }

  /** The class of a size is the smallest class that holds it. */
  lemma SizeClassSmallest(n: int, c: nat)
    requires n <= BUFFER_LIMIT && IsClass(c) && n <= c
    ensures IsClass(SizeClass(n)) && n <= SizeClass(n) <= c
  {
  }

  /** A pooled io_buffer; its bytes do not matter here. */
  class Buffer {
    const capacity: nat
    var length: nat
    var head: nat

    constructor (capacity: nat)
      ensures this.capacity == capacity && length == head == 0
    {
      this.capacity := capacity;
      length, head := 0, 0;
    }
  }

  function Kilobytes(bs: seq<Buffer>): nat {
    if bs == [] then 0 else Kilobytes(bs[..|bs| - 1]) + bs[|bs| - 1].capacity / 1024
  }

  lemma KilobytesAppend(bs: seq<Buffer>, b: Buffer)
    ensures Kilobytes(bs + [b]) == Kilobytes(bs) + b.capacity / 1024
  {
    assert (bs + [b])[..|bs|] == bs;
  }

  datatype Allocation = Lent(buffer: Buffer) | TooLarge | OutOfMemory

  /** free holds the list of every class from its front; made and lent are every buffer there
      ever was and those in use. */
  class Pool {
    var free: map<nat, seq<Buffer>>
    var totalMem: nat
    ghost var made: seq<Buffer>
    ghost var lent: set<Buffer>

    function Free(c: nat): seq<Buffer>
      reads this`free
    {
      if c in free then free[c] else []
    }

    /** The list of class c: all of that class, cleared, not lent, none twice. */
    ghost predicate ListOk(c: nat)
      reads this`free, this`made, this`lent, made
    {
      var es := Free(c);
      && (forall i :: 0 <= i < |es| ==>
            es[i] in made && es[i].capacity == c && es[i] !in lent && es[i].length == es[i].head == 0)
      && (forall i, j :: 0 <= i < j < |es| ==> es[i] != es[j])
    }

    /** Every buffer is either lent or in the free list of its class. */
    ghost predicate PlacesOk()
      reads this`free, this`made, this`lent
    {
      && (forall b :: b in made ==> IsClass(b.capacity) && (b in lent || b in Free(b.capacity)))
      && (forall b :: b in lent ==> b in made)
      && (forall i, j :: 0 <= i < j < |made| ==> made[i] != made[j])
    }

    ghost predicate Valid()
      reads this, made
    {
      && (forall c :: ListOk(c))
      && PlacesOk()
      && totalMem == Kilobytes(made) < MEMORY_LIMIT
    }

    /** The buffers made beforehand: about 326 MiB. */
    constructor ()
      ensures Valid() && lent == {} && totalMem == 334240
      ensures |Free(4096)| == 5000 && |Free(16384)| == 1000 && |Free(65536)| == 500 && |Free(262144)| == 200
      ensures |Free(1048576)| == 50 && |Free(4194304)| == 20 && |Free(8388608)| == 10
    {
      free, totalMem, made, lent := map[], 0, [], {};
      new;
      hide IsClass, Kilobytes, Pool.Valid, Pool.ListOk, Pool.PlacesOk;
      AllClasses();
      NoBuffers();
      EmptyValid();
      Fill(4096, 5000);
      Fill(16384, 1000);
      Fill(65536, 500);
      Fill(262144, 200);
      Fill(1048576, 50);
      Fill(4194304, 20);
      Fill(8388608, 10);
    }

    lemma EmptyValid()
      requires free == map[] && made == [] && lent == {} && totalMem == 0
      ensures Valid()
    {
      NoBuffers();
    }

    /** One loop of the constructor: n buffers linked behind each other. */
    method Fill(c: nat, n: nat)
      requires Valid() && IsClass(c) && totalMem + n * (c / 1024) < MEMORY_LIMIT
      modifies this
      ensures Valid() && lent == old(lent) && totalMem == old(totalMem) + n * (c / 1024)
      ensures |Free(c)| == |old(Free(c))| + n
      ensures forall d :: d != c ==> Free(d) == old(Free(d))
    {
      hide IsClass, Kilobytes, Pool.ListOk, Pool.PlacesOk;
      for i := 0 to n
        invariant (forall d :: ListOk(d)) && PlacesOk() && lent == old(lent) && totalMem == old(totalMem)
        invariant Kilobytes(made) == old(totalMem) + i * (c / 1024)
        invariant |Free(c)| == |old(Free(c))| + i
        invariant forall d :: d != c ==> Free(d) == old(Free(d))
      {
        MakeFree(c);
      }
      totalMem := totalMem + n * (c / 1024);
    }

    method MakeFree(c: nat)
      requires (forall d :: ListOk(d)) && PlacesOk() && IsClass(c)
      modifies this`made, this`free
      ensures (forall d :: ListOk(d)) && PlacesOk()
      ensures Kilobytes(made) == old(Kilobytes(made)) + c / 1024
      ensures exists b :: free == old(free)[c := old(Free(c)) + [b]]
    {
      hide IsClass, Kilobytes;
      var b := new Buffer(c);
      KilobytesAppend(made, b);
      made := made + [b];
      free := free[c := Free(c) + [b]];
      forall d: nat
        ensures ListOk(d)
      {
        assert old(ListOk(d));
        var was := old(Free(d));
        assert Free(d) == if d == c then was + [b] else was;
        assert forall i :: 0 <= i < |was| ==> was[i] in old(made) && was[i] != b;
      }
    }

    /** alloc: the front of the list of the smallest class, or a new buffer of that class. */
    method Alloc(n: int) returns (a: Allocation)
      requires Valid()
      modifies this
      ensures Valid()
      ensures a.TooLarge? <==> n > BUFFER_LIMIT
      ensures a.OutOfMemory? ==> old(Free(SizeClass(n))) == [] && totalMem + SizeClass(n) / 1024 >= MEMORY_LIMIT
      ensures !a.Lent? ==> lent == old(lent) && free == old(free) && made == old(made)
      ensures a.Lent? ==>
                var b, c := a.buffer, SizeClass(n);
                && b.capacity == c && b.length == b.head == 0
                && b !in old(lent) && lent == old(lent) + {b}
                && (if old(Free(c)) == [] then fresh(b) && free == old(free) && made == old(made) + [b]
                    else b == old(Free(c))[0] && free == old(free)[c := old(Free(c))[1..]] && made == old(made))
    {
      hide Kilobytes, SizeClass, IsClass;
      var c := SizeClass(n);
      if c == 0 {
        return TooLarge;
      }
      SizeClassIsClass(n);
      assert ListOk(c);
      if Free(c) == [] {
        if totalMem + c / 1024 >= MEMORY_LIMIT {
          return OutOfMemory;
        }
        var b := new Buffer(c);
        KilobytesAppend(made, b);
        totalMem := totalMem + c / 1024;
        made := made + [b];
        lent := lent + {b};
        forall d: nat
          ensures ListOk(d)
        {
          assert old(ListOk(d)) && Free(d) == old(Free(d));
          assert forall i :: 0 <= i < |Free(d)| ==> old(Free(d))[i] in old(made) && Free(d)[i] != b;
        }
        return Lent(b);
      }
      var b := Free(c)[0];
      free := free[c := Free(c)[1..]];
      lent := lent + {b};
      forall d: nat
        ensures ListOk(d)
      {
        assert old(ListOk(d)) && old(ListOk(c));
        assert Free(d) == if d == c then old(Free(c))[1..] else old(Free(d));
        assert forall i :: 0 <= i < |Free(d)| ==> Free(d)[i] != b;
      }
      assert old(Free(c)) == [b] + Free(c);
      a := Lent(b);
    }

    /** revert: a lent buffer comes back, cleared, to the front of its class. */
    method Revert(b: Buffer)
      requires Valid() && b in lent
      modifies this, b
      ensures Valid() && lent == old(lent) - {b} && made == old(made)
      ensures free == old(free)[b.capacity := [b] + old(Free(b.capacity))]
    {
      hide Kilobytes, IsClass;
      var c := b.capacity;
      b.length, b.head := 0, 0;
      free := free[c := [b] + Free(c)];
      lent := lent - {b};
      forall d: nat
        ensures ListOk(d)
      {
        assert old(ListOk(d));
        ghost var was := old(Free(d));
        assert Free(d) == if d == c then [b] + was else was;
        assert forall i :: 0 <= i < |was| ==> was[i] != b && was[i].length == was[i].head == 0;
      }
    }

    /** Conservation: no buffer is both free and lent, every free buffer is in the list of its own
        class only, the two kinds are all there is, and the memory counter is the capacity of all
        of them. */
    lemma Conserved(b: Buffer)
      requires Valid()
      ensures b in made <==> (b in lent || exists c :: b in Free(c))
      ensures b in lent ==> forall c :: b !in Free(c)
      ensures forall c, d :: b in Free(c) && b in Free(d) ==> c == d == b.capacity
      ensures forall i, j :: 0 <= i < j < |made| ==> made[i] != made[j]
      ensures forall c, i, j :: 0 <= i < j < |Free(c)| ==> Free(c)[i] != Free(c)[j]
      ensures totalMem == Kilobytes(made) < 5242880
    {
      hide Kilobytes, IsClass;
      forall c | b in Free(c)
        ensures b in made && b !in lent && b.capacity == c
      {
        assert ListOk(c);
      }
      forall c, i, j | 0 <= i < j < |Free(c)|
        ensures Free(c)[i] != Free(c)[j]
      {
        assert ListOk(c);
      }
    }
  }

  lemma AllClasses()
    ensures IsClass(4096) && IsClass(16384) && IsClass(65536) && IsClass(262144)
    ensures IsClass(1048576) && IsClass(4194304) && IsClass(8388608)
  {
  }

  lemma NoBuffers()
    ensures Kilobytes([]) == 0
  {
  }

  lemma SizeClassIsClass(n: int)
    requires n <= BUFFER_LIMIT
    ensures IsClass(SizeClass(n))
  {
  }
}
