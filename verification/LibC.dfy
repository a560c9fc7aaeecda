// memcpy, memmove and memcmp over a flat memory.
module LibC {
  import opened Common

  // The source block put at the destination, everything else unchanged.
  function Moved(mem: seq<u8>, dest: nat, src: nat, count: nat): (m: seq<u8>)
    requires dest + count <= |mem| && src + count <= |mem|
    ensures |m| == |mem|
  {
    mem[..dest] + mem[src..src + count] + mem[dest + count..]
  }

  lemma MovedAt(m: seq<u8>, now: seq<u8>, dest: nat, src: nat, count: nat, d: nat)
    requires src <= dest && dest + count <= |m| == |now| && dest <= d < dest + count
    requires now[..d + 1] == m[..d + 1] && now[d + 1..] == Moved(m, dest, src, count)[d + 1..]
    ensures var next := now[d := now[d - dest + src]];
            next[..d] == m[..d] && next[d..] == Moved(m, dest, src, count)[d..]
  {
    assert now[d - dest + src] == now[..d + 1][d - dest + src] == m[d - dest + src];
    assert Moved(m, dest, src, count)[d] == m[d - dest + src];
  }

  lemma MovedBelow(m: seq<u8>, now: seq<u8>, dest: nat, src: nat, count: nat, d: nat)
    requires dest < src && src + count <= |m| == |now| && dest <= d < dest + count
    requires now[d..] == m[d..] && now[..d] == Moved(m, dest, src, count)[..d]
    ensures var next := now[d := now[d - dest + src]];
            next[d + 1..] == m[d + 1..] && next[..d + 1] == Moved(m, dest, src, count)[..d + 1]
  {
    assert now[d - dest + src] == now[d..][src - dest] == m[d - dest + src];
    assert Moved(m, dest, src, count)[d] == m[d - dest + src];
  }

  // *d = *s
  method CopyByte(mem: array<u8>, d: nat, s: nat)
    requires d < mem.Length && s < mem.Length
    modifies mem
    ensures mem[..] == old(mem[..])[d := old(mem[..])[s]]
  {
    mem[d] := mem[s];
  }

  method MoveForward(mem: array<u8>, dest: nat, src: nat, count0: nat)
    requires dest < src && src + count0 <= mem.Length
    modifies mem
    ensures mem[..] == Moved(old(mem[..]), dest, src, count0)
  {
    ghost var m := mem[..];
    var count, d, s := count0, dest, src;
    while count > 0
      invariant 0 <= count <= count0 && d == dest + (count0 - count) && s == src + (count0 - count)
      invariant mem[d..] == m[d..] && mem[..d] == Moved(m, dest, src, count0)[..d]
    {
      count := count - 1;
      MovedBelow(m, mem[..], dest, src, count0, d);
      CopyByte(mem, d, s);
      d, s := d + 1, s + 1;
    }
    assert mem[..] == mem[..d] + mem[d..];
  }

  method MoveBackward(mem: array<u8>, dest: nat, src: nat, count0: nat)
    requires src <= dest && dest + count0 <= mem.Length
    modifies mem
    ensures mem[..] == Moved(old(mem[..]), dest, src, count0)
  {
    ghost var m := mem[..];
    var count, d, s := count0, dest + count0, src + count0;
    while count > 0
      invariant 0 <= count <= count0 && d == dest + count && s == src + count
      invariant mem[..d] == m[..d] && mem[d..] == Moved(m, dest, src, count0)[d..]
    {
      count := count - 1;
      d, s := d - 1, s - 1;
      MovedAt(m, mem[..], dest, src, count0, d);
      CopyByte(mem, d, s);
    }
    assert mem[..] == mem[..d] + mem[d..];
  }

  // memmove: forward when the destination is below the source, else backward.
  method Memmove(mem: array<u8>, dest: nat, src: nat, count0: nat)
    requires dest + count0 <= mem.Length && src + count0 <= mem.Length
    modifies mem
    ensures mem[..] == Moved(old(mem[..]), dest, src, count0)
  {
    if dest < src {
      MoveForward(mem, dest, src, count0);
    } else {
      MoveBackward(mem, dest, src, count0);
    }
  }

  // A copy byte after byte from the lowest: what it has overwritten it reads again.
  function ForwardCopied(mem: seq<u8>, dest: nat, src: nat, count: nat): (m: seq<u8>)
    requires dest + count <= |mem| && src + count <= |mem|
    ensures |m| == |mem|
  {
    if count == 0 then mem
    else
      var m := ForwardCopied(mem, dest, src, count - 1);
      m[dest + count - 1 := m[src + count - 1]]
  }

  // j modulo p.
  function Phase(j: nat, p: nat): (r: nat)
    requires p > 0
    ensures r < p && r <= j
  {
    if j < p then j else Phase(j - p, p)
  }

  // The block repeats its first p bytes.
  predicate Periodic(block: seq<u8>, p: nat)
    requires p > 0
  {
    forall j :: 0 <= j < |block| ==> block[j] == block[Phase(j, p)]
  }

  // With the destination above the source by p, the copy repeats the first p
  // bytes of the source; otherwise it is the source.
  function CopiedByte(mem: seq<u8>, dest: nat, src: nat, j: nat): u8
    requires src + j < |mem|
  {
    if dest <= src then mem[src + j] else mem[src + Phase(j, dest - src)]
  }

  lemma {:induction false} ForwardCopyAt(mem: seq<u8>, dest: nat, src: nat, count: nat, k: nat)
    requires dest + count <= |mem| && src + count <= |mem| && k < |mem|
    ensures ForwardCopied(mem, dest, src, count)[k] ==
            if dest <= k < dest + count then CopiedByte(mem, dest, src, k - dest) else mem[k]
  {
    if count > 0 {
      var last := count - 1;
      if k != dest + last {
        ForwardCopyAt(mem, dest, src, last, k);
      } else {
        ForwardCopyAt(mem, dest, src, last, src + last);
      }
    }
  }

  // memcpy, whose result is every byte of the source, or of its first dest - src bytes
  // over and over where it overwrites them.
  method Memcpy(mem: array<u8>, dest: nat, src: nat, count0: nat)
    requires dest + count0 <= mem.Length && src + count0 <= mem.Length
    modifies mem
    ensures mem[..] == ForwardCopied(old(mem[..]), dest, src, count0)
    ensures forall k :: 0 <= k < mem.Length ==>
      mem[k] == if dest <= k < dest + count0 then CopiedByte(old(mem[..]), dest, src, k - dest) else old(mem[k])
  {
    ghost var m := mem[..];
    var count := count0;
    var d, s := dest, src;
    while count > 0
      invariant 0 <= count <= count0 && d == dest + (count0 - count) && s == src + (count0 - count)
      invariant mem[..] == ForwardCopied(m, dest, src, count0 - count)
    {
      count := count - 1;
      mem[d] := mem[s];
      d, s := d + 1, s + 1;
    }
    forall k | 0 <= k < mem.Length
      ensures mem[..][k] == if dest <= k < dest + count0 then CopiedByte(m, dest, src, k - dest) else m[k]
    {
      ForwardCopyAt(m, dest, src, count0, k);
    }
  }

  lemma CopyAgainstMove(mem: seq<u8>, dest: nat, src: nat, count: nat, k: nat)
    requires dest + count <= |mem| && src + count <= |mem| && k < |mem|
    ensures ForwardCopied(mem, dest, src, count)[k] == Moved(mem, dest, src, count)[k]
            <==> !(dest <= k < dest + count) || CopiedByte(mem, dest, src, k - dest) == mem[src + k - dest]
  {
    ForwardCopyAt(mem, dest, src, count, k);
  }

  // memcpy gives what memmove gives exactly when the destination is not above
  // the source or the source block repeats itself at their distance; a source
  // that ends before the destination does so trivially.
  lemma MemcpyIsMemmoveIff(mem: seq<u8>, dest: nat, src: nat, count: nat)
    requires dest + count <= |mem| && src + count <= |mem|
    ensures ForwardCopied(mem, dest, src, count) == Moved(mem, dest, src, count)
            <==> dest <= src || Periodic(mem[src..src + count], dest - src)
  {
    var block := mem[src..src + count];
    if ForwardCopied(mem, dest, src, count) == Moved(mem, dest, src, count) {
      forall j | 0 <= j < count
        ensures CopiedByte(mem, dest, src, j) == block[j]
      {
        CopyAgainstMove(mem, dest, src, count, dest + j);
      }
    } else {
      var k :| 0 <= k < |mem| && ForwardCopied(mem, dest, src, count)[k] != Moved(mem, dest, src, count)[k];
      CopyAgainstMove(mem, dest, src, count, k);
      assert CopiedByte(mem, dest, src, k - dest) != block[k - dest];
    }
  }

  function OneByte(size: nat, at: nat): (m: seq<u8>)
    ensures |m| == size && forall i :: 0 <= i < size ==> m[i] == if i == at then 1 else 0
  {
    seq(size, i => if i == at then 1 else 0)
  }

  // For all contents at once: the two agree exactly when the blocks do not
  // overlap or the destination is not above the source.
  lemma MemcpyIsMemmoveForAllIff(size: nat, dest: nat, src: nat, count: nat)
    requires dest + count <= size && src + count <= size
    ensures (forall mem: seq<u8> :: |mem| == size ==> ForwardCopied(mem, dest, src, count) == Moved(mem, dest, src, count))
            <==> dest <= src || src + count <= dest
  {
    if dest <= src || src + count <= dest {
      forall mem: seq<u8> | |mem| == size
        ensures ForwardCopied(mem, dest, src, count) == Moved(mem, dest, src, count)
      {
        MemcpyIsMemmoveIff(mem, dest, src, count);
      }
    } else {
      var mem := OneByte(size, src);
      var block := mem[src..src + count];
      MemcpyIsMemmoveIff(mem, dest, src, count);
      assert block[dest - src] == 0 && block[Phase(dest - src, dest - src)] == block[0] == 1;
    }
  }

  // ---------------------------------------------------------------------------
  // memcmp
  // ---------------------------------------------------------------------------

  // At the first byte where they differ, a's is smaller.
  ghost predicate Below(a: seq<u8>, b: seq<u8>)
    requires |a| == |b|
  {
    exists k :: 0 <= k < |a| && a[..k] == b[..k] && a[k] < b[k]
  }

  // The first difference decides.
  lemma BelowAt(a: seq<u8>, b: seq<u8>, k: nat)
    requires |a| == |b| && k < |a| && a[..k] == b[..k] && a[k] != b[k]
    ensures Below(a, b) <==> a[k] < b[k]
  {
    if Below(a, b) {
      var l :| 0 <= l < |a| && a[..l] == b[..l] && a[l] < b[l];
      assert forall i :: 0 <= i < l ==> a[..l][i] == a[i] && b[..l][i] == b[i];
      assert forall i :: 0 <= i < k ==> a[..k][i] == a[i] && b[..k][i] == b[i];
    }
  }

  method Memcmp(lhs: seq<u8>, rhs: seq<u8>, count0: nat) returns (r: int)
    requires count0 <= |lhs| && count0 <= |rhs|
    ensures r == -1 || r == 0 || r == 1
    ensures r == -1 <==> Below(lhs[..count0], rhs[..count0])
    ensures r == 1 <==> Below(rhs[..count0], lhs[..count0])
    ensures r == 0 <==> lhs[..count0] == rhs[..count0]
  {
    var count, i := count0, 0;
    while count > 0
      invariant i + count == count0
      invariant lhs[..i] == rhs[..i]
    {
      count := count - 1;
      if lhs[i] != rhs[i] {
        var a, b := lhs[..count0], rhs[..count0];
        assert a[..i] == lhs[..i] && b[..i] == rhs[..i];
        BelowAt(a, b, i);
        BelowAt(b, a, i);
        return if lhs[i] < rhs[i] then -1 else 1;
      }
      i := i + 1;
    }
    return 0;
  }

  lemma {:induction false} FirstDifference(a: seq<u8>, b: seq<u8>, i: nat) returns (k: nat)
    requires |a| == |b| && i <= |a| && a[..i] == b[..i] && a[i..] != b[i..]
    ensures k < |a| && a[..k] == b[..k] && a[k] != b[k]
    decreases |a| - i
  {
    if a[i] != b[i] {
      k := i;
    } else {
      assert a[..i + 1] == a[..i] + [a[i]] && b[..i + 1] == b[..i] + [b[i]];
      assert a[i..] == [a[i]] + a[i + 1..] && b[i..] == [b[i]] + b[i + 1..];
      k := FirstDifference(a, b, i + 1);
    }
  }

  // The order memcmp decides is total: any two blocks of one length compare, and
  // it is transitive.
  lemma BelowIsTotal(a: seq<u8>, b: seq<u8>)
    requires |a| == |b|
    ensures a == b || Below(a, b) || Below(b, a)
  {
    if a != b {
      var k := FirstDifference(a, b, 0);
    }
  }

  lemma BelowIsTransitive(a: seq<u8>, b: seq<u8>, c: seq<u8>)
    requires |a| == |b| == |c| && Below(a, b) && Below(b, c)
    ensures Below(a, c)
  {
    var k :| 0 <= k < |a| && a[..k] == b[..k] && a[k] < b[k];
    var l :| 0 <= l < |b| && b[..l] == c[..l] && b[l] < c[l];
    var m := if k < l then k else l;
    assert a[..m] == a[..k][..m] == b[..k][..m] == b[..m];
    assert b[..m] == b[..l][..m] == c[..l][..m] == c[..m];
    assert k < l ==> b[..l][k] == c[..l][k];
    assert l < k ==> a[..k][l] == b[..k][l];
    assert a[m] < c[m];
  }
}
