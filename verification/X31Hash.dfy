/** The hash that tells whether the guest bytes of a block changed (src/dynarec/dynablock.c). */
module X31Hash {

  type Byte = b: int | 0 <= b < 256

  /** Guest memory: a byte at every address. */
  type Memory = int -> Byte

  const WORD := 0x1_0000_0000

  /** The hash of the first len bytes at addr: a polynomial in 31, cut to 32 bits. */
  function X31(mem: Memory, addr: int, len: nat): (h: int)
    ensures 0 <= h < WORD
  {
    if len == 0 then 0 else (31 * X31(mem, addr, len - 1) + mem(addr + len - 1)) % WORD
  }

  /** X31_hash_code. The source adds in signed 32-bit words; the value read as unsigned is the
      same. */
  method X31HashCode(mem: Memory, addr: int, len: nat) returns (h: int)
    ensures h == X31(mem, addr, len)
  {
    if len == 0 {
      return 0;
    }
    h := mem(addr);
    var left, p := len - 1, addr + 1;
    while left != 0
      invariant 0 <= left < len && p == addr + len - left
      invariant h == X31(mem, addr, len - left)
    {
      h := (h * 32 - h + mem(p)) % WORD;
      left, p := left - 1, p + 1;
    }
  }

  /** Bytes outside the range do not matter. */
  lemma {:induction false} X31Same(m: Memory, n: Memory, addr: int, len: nat)
    requires forall x | addr <= x < addr + len :: m(x) == n(x)
    ensures X31(m, addr, len) == X31(n, addr, len)
  {
    if len == 0 {
    } else {
      X31Same(m, n, addr, len - 1);
    }
  }

  /** One step of the hash loses nothing: 31 is odd. */
  lemma StepInjective(g: int, h: int, b: int)
    requires 0 <= g < WORD && 0 <= h < WORD
    requires (31 * g + b) % WORD == (31 * h + b) % WORD
    ensures g == h
  {
    var q := (31 * g + b) / WORD - (31 * h + b) / WORD;
    assert 31 * (g - h) == q * WORD;
    // 3186588639 is the inverse of 31
    assert 3186588639 * 31 == 23 * WORD + 1;
    assert (g - h) == WORD * (3186588639 * q - 23 * (g - h));
  }

  /** A change of exactly one byte of the range is always noticed. */
  lemma {:induction false} X31NoticesOneByte(m: Memory, n: Memory, addr: int, len: nat, at: int)
    requires addr <= at < addr + len && m(at) != n(at)
    requires forall x | addr <= x < addr + len && x != at :: m(x) == n(x)
    ensures X31(m, addr, len) != X31(n, addr, len)
  {
    var g, h := X31(m, addr, len - 1), X31(n, addr, len - 1);
    if at == addr + len - 1 {
      X31Same(m, n, addr, len - 1);
      LastByte(g, m(at), n(at));
    } else {
      X31NoticesOneByte(m, n, addr, len - 1, at);
      Step(g, h, m(addr + len - 1));
    }
  }

  lemma LastByte(g: int, b: Byte, c: Byte)
    requires b != c
    ensures (31 * g + b) % WORD != (31 * g + c) % WORD
  {}

  lemma Step(g: int, h: int, b: int)
    requires 0 <= g < WORD && 0 <= h < WORD && g != h
    ensures (31 * g + b) % WORD != (31 * h + b) % WORD
  {
    if (31 * g + b) % WORD == (31 * h + b) % WORD { StepInjective(g, h, b); }
  }
}
