/** memcpy and memmove as the assembly does them: overlapping moves of 16 bytes and
    loops that read one round ahead.  Memory is one array of bytes and addresses are
    its indices; a register, or a pair of them, is the bytes that it holds. */
module MemCopy {
  import opened Bits

  newtype byte = x: int | 0 <= x < 0x100

  /** The simple copy. */
  function Copied(s: seq<byte>, dst: nat, src: nat, count: nat): seq<byte>
    requires dst + count <= |s| && src + count <= |s|
  {
    s[..dst] + s[src..src + count] + s[dst + count..]
  }

  /** Byte by byte: the destination holds the source's old bytes, and every other byte is what it was. */
  lemma CopiedBytes(s: seq<byte>, dst: nat, src: nat, count: nat, i: nat)
    requires dst + count <= |s| && src + count <= |s| && i < |s|
    ensures |Copied(s, dst, src, count)| == |s|
    ensures Copied(s, dst, src, count)[i] == if dst <= i < dst + count then s[src + (i - dst)] else s[i]
  {
  }

  // ---------- how far a copy has come ----------

  /** One copy: the memory before it, and what is copied where. */
  datatype Copy = Copy(was: seq<byte>, dst: nat, src: nat, count: nat) {
    predicate Ok(n: nat) {
      |was| == n && dst + count <= n && src + count <= n
    }
  }

  /** The bytes that belong at address a of the destination. */
  function Old(c: Copy, a: int, n: nat): (r: seq<byte>)
    requires c.Ok(|c.was|) && c.dst <= a && a + n <= c.dst + c.count
    ensures |r| == n
  {
    c.was[a - c.dst + c.src..a - c.dst + c.src + n]
  }

  /** Of the destination the bytes from lo to hi are written, and no other byte has changed. */
  ghost predicate Reached(c: Copy, now: seq<byte>, lo: int, hi: int) {
    && c.Ok(|now|) && c.dst <= lo <= hi <= c.dst + c.count
    && (forall i :: lo <= i < hi ==> now[i] == c.was[i - c.dst + c.src])
    && (forall i :: 0 <= i < |now| && !(lo <= i < hi) ==> now[i] == c.was[i])
  }

  lemma Started(c: Copy)
    requires c.Ok(|c.was|)
    ensures Reached(c, c.was, c.dst, c.dst)
  {
  }

  lemma Finished(c: Copy, now: seq<byte>)
    requires Reached(c, now, c.dst, c.dst + c.count)
    ensures c.Ok(|c.was|) && now == Copied(c.was, c.dst, c.src, c.count)
  {
    assert |Copied(c.was, c.dst, c.src, c.count)| == |now|;
  }

  /** Bytes that no write has reached are the old ones. */
  lemma Unreached(c: Copy, now: seq<byte>, lo: int, hi: int, a: int, n: nat)
    requires Reached(c, now, lo, hi) && 0 <= a && a + n <= |now|
    requires c.src == c.dst || lo == hi || a + n <= lo || hi <= a
    ensures |c.was| == |now| && now[a..a + n] == c.was[a..a + n]
  {
    assert forall i :: a <= i < a + n ==> now[i] == c.was[i];
  }

  /** Writing the right bytes beside, or over, those already written. */
  lemma StoreReaches(c: Copy, now: seq<byte>, now': seq<byte>, a: int, r: seq<byte>,
                     lo: int, hi: int, lo': int, hi': int)
    requires Reached(c, now, lo, hi) && |now'| == |now|
    requires c.dst <= a && a + |r| <= c.dst + c.count && r == Old(c, a, |r|)
    requires lo' <= a && a + |r| <= hi' && Joined(lo, hi, a, a + |r|, lo', hi')
    requires forall i :: 0 <= i < |now| ==> now'[i] == if a <= i < a + |r| then r[i - a] else now[i]
    ensures Reached(c, now', lo', hi')
  {
    forall i | lo' <= i < hi' ensures now'[i] == c.was[i - c.dst + c.src] {
      if a <= i < a + |r| {
        assert r[i - a] == c.was[i - c.dst + c.src];
      } else {
        assert now'[i] == now[i];
      }
    }
    forall i | 0 <= i < |now| && !(lo' <= i < hi') ensures now'[i] == c.was[i] {
      assert now'[i] == now[i];
    }
  }

  function Min(x: int, y: int): int {
    if x <= y then x else y
  }

  function Max(x: int, y: int): int {
    if x <= y then y else x
  }

  /** The union of two ranges that meet. */
  predicate Joined(lo: int, hi: int, a: int, b: int, lo': int, hi': int) {
    if lo == hi then lo' == a && hi' == b
    else a <= hi && lo <= b && (lo' == lo || lo' == a) && lo' <= lo && (hi' == hi || hi' == b) && hi <= hi'
  }

  /** ldr, ldp and ldrb: n bytes inside the source that no write has reached. */
  method Load(mem: array<byte>, a: int, n: nat, ghost c: Copy, ghost lo: int, ghost hi: int) returns (r: seq<byte>)
    requires Reached(c, mem[..], lo, hi) && c.Ok(mem.Length) && c.src <= a && a + n <= c.src + c.count
    requires c.src == c.dst || lo == hi || a + n <= lo || hi <= a
    ensures |r| == n && r == Old(c, a - c.src + c.dst, n)
  {
    Unreached(c, mem[..], lo, hi, a, n);
    r := mem[a..a + n];
    assert r == mem[..][a..a + n];
  }

  /** str, stp and strb: the bytes that belong at address a of the destination. */
  method Store(mem: array<byte>, a: int, r: seq<byte>, ghost c: Copy, ghost lo: int, ghost hi: int,
               ghost lo': int, ghost hi': int)
    requires Reached(c, mem[..], lo, hi) && c.Ok(mem.Length) && c.Ok(|c.was|)
    requires c.dst <= a && a + |r| <= c.dst + c.count && r == Old(c, a, |r|)
    requires lo' <= a && a + |r| <= hi' && Joined(lo, hi, a, a + |r|, lo', hi')
    modifies mem
    ensures Reached(c, mem[..], lo', hi')
  {
    hide Reached, Old, Joined;
    ghost var now := mem[..];
    for i := 0 to |r|
      invariant forall j :: 0 <= j < mem.Length ==> mem[j] == if a <= j < a + i then r[j - a] else now[j]
    {
      mem[a + i] := r[i];
    }
    StoreReaches(c, now, mem[..], a, r, lo, hi, lo', hi');
  }

  // ---------- memcpy ----------

  /** memcpy.  Up to 96 bytes may overlap in any way; more only downwards. */
  method Memcpy(mem: array<byte>, dstin: nat, src: nat, count: nat) returns (r: nat)
    requires dstin + count <= mem.Length <= U64 && src + count <= mem.Length
    requires count <= 96 || dstin <= src || src + count <= dstin
    modifies mem
    ensures r == dstin && mem[..] == Copied(old(mem[..]), dstin, src, count)
  {
    hide *;
    if count <= 16 {
      CopySmall(mem, dstin, src, count);
    } else if count > 96 {
      CopyLong(mem, dstin, src, count);
    } else {
      CopyMedium(mem, dstin, src, count);
    }
    r := dstin;
  }

  method CopySmall(mem: array<byte>, dstin: nat, src: nat, count: nat)
    requires dstin + count <= mem.Length && src + count <= mem.Length && count <= 16
    modifies mem
    ensures mem[..] == Copied(old(mem[..]), dstin, src, count)
  {
    hide Reached, Copied, Old;
    var srcend, dstend := src + count, dstin + count;
    ghost var c := Copy(mem[..], dstin, src, count);
    Started(c);
    if count >= 8 {
      var A_l := Load(mem, src, 8, c, dstin, dstin);
      var A_h := Load(mem, srcend - 8, 8, c, dstin, dstin);
      Store(mem, dstin, A_l, c, dstin, dstin, dstin, dstin + 8);
      Store(mem, dstend - 8, A_h, c, dstin, dstin + 8, dstin, dstend);
    } else if count / 4 % 2 == 1 {
      var A_lw := Load(mem, src, 4, c, dstin, dstin);
      var A_hw := Load(mem, srcend - 4, 4, c, dstin, dstin);
      Store(mem, dstin, A_lw, c, dstin, dstin, dstin, dstin + 4);
      Store(mem, dstend - 4, A_hw, c, dstin, dstin + 4, dstin, dstend);
    } else if count != 0 {
      var tmp1 := count / 2;
      var A_lw := Load(mem, src, 1, c, dstin, dstin);
      var A_hw := Load(mem, srcend - 1, 1, c, dstin, dstin);
      var B_lw := Load(mem, src + tmp1, 1, c, dstin, dstin);
      Store(mem, dstin, A_lw, c, dstin, dstin, dstin, dstin + 1);
      Store(mem, dstin + tmp1, B_lw, c, dstin, dstin + 1, dstin, dstin + tmp1 + 1);
      Store(mem, dstend - 1, A_hw, c, dstin, dstin + tmp1 + 1, dstin, dstend);
    }
    Finished(c, mem[..]);
  }

  method CopyMedium(mem: array<byte>, dstin: nat, src: nat, count: nat)
    requires dstin + count <= mem.Length && src + count <= mem.Length && 16 < count <= 96
    modifies mem
    ensures mem[..] == Copied(old(mem[..]), dstin, src, count)
  {
    hide Reached, Copied, Old;
    var srcend, dstend := src + count, dstin + count;
    ghost var c := Copy(mem[..], dstin, src, count);
    Started(c);
    var tmp1 := count - 1;
    var A := Load(mem, src, 16, c, dstin, dstin);
    if tmp1 / 64 % 2 == 1 {
      Copy96(mem, dstin, src, srcend, dstend, A, c);
    } else {
      var D := Load(mem, srcend - 16, 16, c, dstin, dstin);
      ghost var lo, hi := dstin, dstin;
      if tmp1 / 32 % 2 == 1 {
        var B := Load(mem, src + 16, 16, c, dstin, dstin);
        var C := Load(mem, srcend - 32, 16, c, dstin, dstin);
        lo, hi := Min(dstin + 16, dstend - 32), Max(dstin + 32, dstend - 16);
        Store(mem, dstin + 16, B, c, dstin, dstin, dstin + 16, dstin + 32);
        Store(mem, dstend - 32, C, c, dstin + 16, dstin + 32, lo, hi);
      }
      Store(mem, dstin, A, c, lo, hi, dstin, Max(hi, dstin + 16));
      Store(mem, dstend - 16, D, c, dstin, Max(hi, dstin + 16), dstin, dstend);
    }
    Finished(c, mem[..]);
  }

  /** copy96: 64 bytes from the start and 32 from the end. */
  method Copy96(mem: array<byte>, dstin: nat, src: nat, srcend: nat, dstend: nat, A: seq<byte>, ghost c: Copy)
    requires c.Ok(mem.Length) && c.Ok(|c.was|) && 64 < c.count <= 96 && src == c.src && dstin == c.dst
    requires srcend == src + c.count && dstend == dstin + c.count
    requires Reached(c, mem[..], dstin, dstin) && A == Old(c, dstin, 16)
    modifies mem
    ensures Reached(c, mem[..], dstin, dstend)
  {
    hide Reached, Old;
    var B := Load(mem, src + 16, 16, c, dstin, dstin);
    var C := Load(mem, src + 32, 16, c, dstin, dstin);
    var D := Load(mem, src + 48, 16, c, dstin, dstin);
    var E := Load(mem, srcend - 32, 16, c, dstin, dstin);
    var F := Load(mem, srcend - 16, 16, c, dstin, dstin);
    Store(mem, dstin, A, c, dstin, dstin, dstin, dstin + 16);
    Store(mem, dstin + 16, B, c, dstin, dstin + 16, dstin, dstin + 32);
    Store(mem, dstin + 32, C, c, dstin, dstin + 32, dstin, dstin + 48);
    Store(mem, dstin + 48, D, c, dstin, dstin + 48, dstin, dstin + 64);
    ghost var hi := Max(dstin + 64, dstend - 16);
    Store(mem, dstend - 32, E, c, dstin, dstin + 64, dstin, hi);
    Store(mem, dstend - 16, F, c, dstin, hi, dstin, dstend);
  }

  /** copy_long: dst is aligned downwards, and A, B, C and D hold the 64 bytes to write next. */
  method CopyLong(mem: array<byte>, dstin: nat, src: nat, count: nat)
    requires dstin + count <= mem.Length && src + count <= mem.Length && count > 96
    requires dstin <= src || src + count <= dstin
    modifies mem
    ensures mem[..] == Copied(old(mem[..]), dstin, src, count)
  {
    hide Reached, Copied, Old;
    var srcend, dstend := src + count, dstin + count;
    ghost var c := Copy(mem[..], dstin, src, count);
    Started(c);
    var tmp1 := dstin % 16;
    var dst := dstin - tmp1;
    var D := Load(mem, src, 16, c, dstin, dstin);
    var s: int := src - tmp1;
    var cnt: int := count + tmp1;
    var A := Load(mem, s + 16, 16, c, dstin, dstin);
    ghost var hi := dstin + 16;
    Store(mem, dstin, D, c, dstin, dstin, dstin, hi);
    var B := Load(mem, s + 32, 16, c, dstin, hi);
    var C := Load(mem, s + 48, 16, c, dstin, hi);
    D := Load(mem, s + 64, 16, c, dstin, hi);
    s := s + 64;
    var more := cnt > 144;
    cnt := cnt - 144;
    while more
      invariant Reached(c, mem[..], dstin, hi) && dst + 16 <= hi < dst + 32 && hi <= dstend - 65
      invariant s == dst + (src - dstin) + 64 && dstin <= dst + 15 && dstend == dst + 144 + cnt && (more <==> cnt > 0)
      invariant cnt > -64
      invariant A == Old(c, dst + 16, 16) && B == Old(c, dst + 32, 16)
      invariant C == Old(c, dst + 48, 16) && D == Old(c, dst + 64, 16)
      decreases cnt
    {
      A, B, C, D := CopyRound(mem, dst, s, A, B, C, D, c, hi);
      dst := dst + 64;
      s := s + 64;
      hi := dst + 16;
      more := cnt > 64;
      cnt := cnt - 64;
    }
    CopyTail(mem, dst, A, B, C, D, c, hi, srcend, dstend);
    Finished(c, mem[..]);
  }

  /** One round of the loop: write 64 bytes, and read the 64 after them. */
  method CopyRound(mem: array<byte>, dst: nat, s: int, A: seq<byte>, B: seq<byte>, C: seq<byte>, D: seq<byte>,
                   ghost c: Copy, ghost hi: nat)
    returns (A': seq<byte>, B': seq<byte>, C': seq<byte>, D': seq<byte>)
    requires c.Ok(mem.Length) && c.Ok(|c.was|) && (c.dst <= c.src || c.src + c.count <= c.dst)
    requires Reached(c, mem[..], c.dst, hi) && dst + 16 <= hi < dst + 32
    requires s == dst + (c.src - c.dst) + 64 && c.dst <= dst + 15 && dst + 144 < c.dst + c.count
    requires A == Old(c, dst + 16, 16) && B == Old(c, dst + 32, 16)
    requires C == Old(c, dst + 48, 16) && D == Old(c, dst + 64, 16)
    modifies mem
    ensures Reached(c, mem[..], c.dst, dst + 80)
    ensures A' == Old(c, dst + 80, 16) && B' == Old(c, dst + 96, 16)
    ensures C' == Old(c, dst + 112, 16) && D' == Old(c, dst + 128, 16)
  {
    hide Reached, Old;
    ghost var lo := c.dst;
    Store(mem, dst + 16, A, c, lo, hi, lo, dst + 32);
    A' := Load(mem, s + 16, 16, c, lo, dst + 32);
    Store(mem, dst + 32, B, c, lo, dst + 32, lo, dst + 48);
    B' := Load(mem, s + 32, 16, c, lo, dst + 48);
    Store(mem, dst + 48, C, c, lo, dst + 48, lo, dst + 64);
    C' := Load(mem, s + 48, 16, c, lo, dst + 64);
    Store(mem, dst + 64, D, c, lo, dst + 64, lo, dst + 80);
    D' := Load(mem, s + 64, 16, c, lo, dst + 80);
  }

  /** Label 2 of copy_long: the last 64 bytes in hand, and the last 64 bytes from the end. */
  method CopyTail(mem: array<byte>, dst: nat, A0: seq<byte>, B0: seq<byte>, C0: seq<byte>, D: seq<byte>,
                  ghost c: Copy, ghost hi: nat, srcend: nat, dstend: nat)
    requires c.Ok(mem.Length) && c.Ok(|c.was|) && srcend == c.src + c.count && dstend == c.dst + c.count
    requires c.dst <= c.src || srcend <= c.dst
    requires c.count > 96 && Reached(c, mem[..], c.dst, hi) && dst + 16 <= hi < dst + 32 && hi <= dstend - 65
    requires c.dst <= dst + 15 && dst + 80 < dstend <= dst + 144
    requires A0 == Old(c, dst + 16, 16) && B0 == Old(c, dst + 32, 16)
    requires C0 == Old(c, dst + 48, 16) && D == Old(c, dst + 64, 16)
    modifies mem
    ensures Reached(c, mem[..], c.dst, dstend)
  {
    hide Reached, Old;
    ghost var lo := c.dst;
    var A, B, C := A0, B0, C0;
    var E := Load(mem, srcend - 64, 16, c, lo, hi);
    Store(mem, dst + 16, A, c, lo, hi, lo, dst + 32);
    A := Load(mem, srcend - 48, 16, c, lo, dst + 32);
    Store(mem, dst + 32, B, c, lo, dst + 32, lo, dst + 48);
    B := Load(mem, srcend - 32, 16, c, lo, dst + 48);
    Store(mem, dst + 48, C, c, lo, dst + 48, lo, dst + 64);
    C := Load(mem, srcend - 16, 16, c, lo, dst + 64);
    Store(mem, dst + 64, D, c, lo, dst + 64, lo, dst + 80);
    ghost var h1 := Max(dst + 80, dstend - 48);
    ghost var h2 := Max(dst + 80, dstend - 32);
    ghost var h3 := Max(dst + 80, dstend - 16);
    Store(mem, dstend - 64, E, c, lo, dst + 80, lo, h1);
    Store(mem, dstend - 48, A, c, lo, h1, lo, h2);
    Store(mem, dstend - 32, B, c, lo, h2, lo, h3);
    Store(mem, dstend - 16, C, c, lo, h3, lo, dstend);
  }

  // ---------- memmove ----------

  /** memmove: the simple copy, whatever the overlap. */
  method Memmove(mem: array<byte>, dstin: nat, src: nat, count: nat) returns (r: nat)
    requires dstin + count <= mem.Length <= U64 && src + count <= mem.Length
    modifies mem
    ensures r == dstin && mem[..] == Copied(old(mem[..]), dstin, src, count)
  {
    var tmp1 := (dstin - src) % U64;
    if count <= 96 || tmp1 >= count {
      r := Memcpy(mem, dstin, src, count);
      return;
    }
    if tmp1 != 0 {
      MoveUp(mem, dstin, src, count);
    }
    r := dstin;
  }

  /** The copy from the end downwards: dstend is aligned, and A, B, C and D hold the 64 bytes to write next. */
  method MoveUp(mem: array<byte>, dstin: nat, src: nat, count: nat)
    requires dstin + count <= mem.Length && src < dstin && count > 96
    modifies mem
    ensures mem[..] == Copied(old(mem[..]), dstin, src, count)
  {
    hide Reached, Copied, Old;
    var srcend, dstend := src + count, dstin + count;
    ghost var c, end := Copy(mem[..], dstin, src, count), dstend;
    Started(c);
    var tmp1 := dstend % 16;
    var D := Load(mem, srcend - 16, 16, c, dstin, dstin);
    srcend := srcend - tmp1;
    var cnt: int := count - tmp1;
    var A := Load(mem, srcend - 16, 16, c, dstin, dstin);
    ghost var lo := dstend - 16;
    Store(mem, dstend - 16, D, c, dstin, dstin, lo, end);
    var B := Load(mem, srcend - 32, 16, c, lo, end);
    var C := Load(mem, srcend - 48, 16, c, lo, end);
    D := Load(mem, srcend - 64, 16, c, lo, end);
    srcend := srcend - 64;
    dstend := dstend - tmp1;
    var more := cnt > 128;
    cnt := cnt - 128;
    while more
      invariant Reached(c, mem[..], lo, end) && dstend - 16 <= lo <= dstend && dstin + 64 < lo
      invariant srcend == dstend + (src - dstin) - 64
      invariant dstend <= end && dstend == dstin + 128 + cnt && (more <==> cnt > 0)
      invariant cnt > -64
      invariant A == Old(c, dstend - 16, 16) && B == Old(c, dstend - 32, 16)
      invariant C == Old(c, dstend - 48, 16) && D == Old(c, dstend - 64, 16)
      decreases cnt
    {
      A, B, C, D := MoveRound(mem, dstend, srcend, A, B, C, D, c, lo);
      dstend := dstend - 64;
      srcend := srcend - 64;
      lo := dstend;
      more := cnt > 64;
      cnt := cnt - 64;
    }
    MoveTail(mem, dstin, src, dstend, A, B, C, D, c, lo);
    Finished(c, mem[..]);
  }

  /** One round of the loop: write 64 bytes, and read the 64 below them. */
  method MoveRound(mem: array<byte>, dstend: nat, srcend: nat, A: seq<byte>, B: seq<byte>, C: seq<byte>, D: seq<byte>,
                   ghost c: Copy, ghost lo: nat)
    returns (A': seq<byte>, B': seq<byte>, C': seq<byte>, D': seq<byte>)
    requires c.Ok(mem.Length) && c.Ok(|c.was|) && c.src < c.dst && dstend <= c.dst + c.count
    requires Reached(c, mem[..], lo, c.dst + c.count) && dstend - 16 <= lo <= dstend
    requires srcend == dstend + (c.src - c.dst) - 64 && c.dst + 128 < dstend
    requires A == Old(c, dstend - 16, 16) && B == Old(c, dstend - 32, 16)
    requires C == Old(c, dstend - 48, 16) && D == Old(c, dstend - 64, 16)
    modifies mem
    ensures Reached(c, mem[..], dstend - 64, c.dst + c.count)
    ensures A' == Old(c, dstend - 80, 16) && B' == Old(c, dstend - 96, 16)
    ensures C' == Old(c, dstend - 112, 16) && D' == Old(c, dstend - 128, 16)
  {
    hide Reached, Old;
    ghost var end := c.dst + c.count;
    Store(mem, dstend - 16, A, c, lo, end, dstend - 16, end);
    A' := Load(mem, srcend - 16, 16, c, dstend - 16, end);
    Store(mem, dstend - 32, B, c, dstend - 16, end, dstend - 32, end);
    B' := Load(mem, srcend - 32, 16, c, dstend - 32, end);
    Store(mem, dstend - 48, C, c, dstend - 32, end, dstend - 48, end);
    C' := Load(mem, srcend - 48, 16, c, dstend - 48, end);
    Store(mem, dstend - 64, D, c, dstend - 48, end, dstend - 64, end);
    D' := Load(mem, srcend - 64, 16, c, dstend - 64, end);
  }

  /** Label 2 of memmove: the last 64 bytes in hand, and the first 64 bytes. */
  method MoveTail(mem: array<byte>, dstin: nat, src: nat, dstend: nat, A0: seq<byte>, B0: seq<byte>, C0: seq<byte>,
                  D: seq<byte>, ghost c: Copy, ghost lo: nat)
    requires c.Ok(mem.Length) && c.Ok(|c.was|) && src == c.src && dstin == c.dst && src < dstin && c.count > 96
    requires Reached(c, mem[..], lo, dstin + c.count) && dstend - 16 <= lo <= dstend && dstin + 64 < lo
    requires dstin + 64 < dstend <= dstin + 128 && dstend <= dstin + c.count
    requires A0 == Old(c, dstend - 16, 16) && B0 == Old(c, dstend - 32, 16)
    requires C0 == Old(c, dstend - 48, 16) && D == Old(c, dstend - 64, 16)
    modifies mem
    ensures Reached(c, mem[..], dstin, dstin + c.count)
  {
    hide Reached, Old;
    ghost var end := dstin + c.count;
    var A, B, C := A0, B0, C0;
    var E := Load(mem, src + 48, 16, c, lo, end);
    Store(mem, dstend - 16, A, c, lo, end, dstend - 16, end);
    A := Load(mem, src + 32, 16, c, dstend - 16, end);
    Store(mem, dstend - 32, B, c, dstend - 16, end, dstend - 32, end);
    B := Load(mem, src + 16, 16, c, dstend - 32, end);
    Store(mem, dstend - 48, C, c, dstend - 32, end, dstend - 48, end);
    C := Load(mem, src, 16, c, dstend - 48, end);
    Store(mem, dstend - 64, D, c, dstend - 48, end, dstend - 64, end);
    ghost var l1 := Min(dstend - 64, dstin + 48);
    ghost var l2 := Min(dstend - 64, dstin + 32);
    ghost var l3 := Min(dstend - 64, dstin + 16);
    Store(mem, dstin + 48, E, c, dstend - 64, end, l1, end);
    Store(mem, dstin + 32, A, c, l1, end, l2, end);
    Store(mem, dstin + 16, B, c, l2, end, l3, end);
    Store(mem, dstin, C, c, l3, end, dstin, end);
  }
}
