/** Unsigned integers laid out in memory as little-endian bytes, the byte
    order of the x86_64 and aarch64 targets the header is written for. */
module LittleEndian {
  import opened Bits

  type Byte = b: nat | b < 256

  /** The number whose little-endian bytes are `s` (a load of `|s|` bytes). */
  function FromLE(s: seq<Byte>): (r: nat)
    ensures r < Pow2(8 * |s|)
  {
    if s == [] then 0
    else
      var rest := FromLE(s[1..]);
      Pow2Bytes(|s|);
      MulMonoRight(256, rest, Pow2(8 * (|s| - 1)) - 1);
      s[0] + 256 * rest
  }

  /** The `k` little-endian bytes a `k`-byte store of `v` writes (high bytes of `v` are dropped). */
  function ToLE(v: nat, k: nat): (r: seq<Byte>)
    ensures |r| == k
  {
    if k == 0 then [] else [v % 256] + ToLE(v / 256, k - 1)
  }

  /** Storing `v` in `k` bytes and loading it back yields `v` truncated to `8 * k` bits. */
  lemma {:induction false} FromLEToLE(v: nat, k: nat)
    ensures FromLE(ToLE(v, k)) == v % Pow2(8 * k)
  {
    if k > 0 {
      FromLEToLE(v / 256, k - 1);
      assert ToLE(v, k)[1..] == ToLE(v / 256, k - 1);
      Pow2Bytes(k);
      DivDiv(v, 256, Pow2(8 * (k - 1)));
    }
  }

  /** Loading two adjacent byte ranges at once: the later range holds the high part. */
  lemma {:induction false} FromLEAppend(a: seq<Byte>, b: seq<Byte>)
    ensures FromLE(a + b) == FromLE(a) + Pow2(8 * |a|) * FromLE(b)
  {
    if a != [] {
      var x, y, p := FromLE(a[1..]), FromLE(b), Pow2(8 * (|a| - 1));
      assert FromLE(a + b) == a[0] + 256 * FromLE(a[1..] + b) by {
        assert (a + b)[1..] == a[1..] + b && (a + b)[0] == a[0];
      }
      FromLEAppend(a[1..], b);
      assert Pow2(8 * |a|) == 256 * p by {
        Pow2Bytes(|a|);
      }
      ScaleSum(a[0], x, p, y);
    } else {
      assert a + b == b;
    }
  }

  lemma {:induction false} ScaleSum(c: nat, x: nat, p: nat, y: nat)
    ensures c + 256 * (x + p * y) == (c + 256 * x) + (256 * p) * y
  {
  }

  /** Two byte strings of the same length that load the same number are equal. */
  lemma {:induction false} FromLEInjective(s: seq<Byte>, t: seq<Byte>)
    requires |s| == |t| && FromLE(s) == FromLE(t)
    ensures s == t
  {
    if s != [] {
      AddMulDivMod(s[0], FromLE(s[1..]), 256);
      AddMulDivMod(t[0], FromLE(t[1..]), 256);
      FromLEInjective(s[1..], t[1..]);
      assert s == [s[0]] + s[1..] && t == [t[0]] + t[1..];
    }
  }
}
