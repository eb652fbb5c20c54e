/**
 * Bounded string and byte helpers of crypto/o_str.c.
 *
 * A C string is a sequence of bytes that holds a NUL somewhere; the bytes a
 * function only reads are a `seq<byte>`, a destination buffer it writes is an
 * `array<byte>` together with the offset `d` at which the `char *` points.
 */
module OStr {

  /** An `unsigned char`. */
  newtype byte = x: int | 0 <= x < 256

  function Min(a: int, b: int): int { if a <= b then a else b }

  /** `s` holds a NUL, so that it can be read as a C string. */
  predicate IsCString(s: seq<byte>)
  {
    exists i :: 0 <= i < |s| && s[i] == 0
  }

  /** The index of the first NUL at or after `from`. */
  function NulFrom(s: seq<byte>, from: nat): (n: nat)
    requires from <= |s| && exists i :: from <= i < |s| && s[i] == 0
    ensures from <= n < |s| && s[n] == 0
    ensures forall i :: from <= i < n ==> s[i] != 0
    decreases |s| - from
  {
    if s[from] == 0 then from else NulFrom(s, from + 1)
  }

  /** `strlen`: the index of the first NUL. */
  function StrLen(s: seq<byte>): (n: nat)
    requires IsCString(s)
    ensures n < |s| && s[n] == 0
    ensures forall i :: 0 <= i < n ==> s[i] != 0
  {
    NulFrom(s, 0)
  }

  /** Skipping `l` non-NUL bytes shortens the string by `l`. */
  lemma StrLenSuffix(s: seq<byte>, l: nat)
    requires IsCString(s) && l <= StrLen(s)
    ensures IsCString(s[l..]) && StrLen(s[l..]) == StrLen(s) - l
  {
    var n := StrLen(s);
    assert s[l..][n - l] == 0;
    var m := StrLen(s[l..]);
    assert s[l + m] == 0;
  }

  /** `i` is the first index at which `c1` and `c2` differ. */
  ghost predicate FirstDifferenceAt(c1: seq<byte>, c2: seq<byte>, i: nat)
  {
    i < |c1| && i < |c2| && c1[..i] == c2[..i] && c1[i] != c2[i]
  }

  /** Two sequences differ first at one index only. */
  lemma FirstDifferenceUnique(c1: seq<byte>, c2: seq<byte>, i: nat, j: nat)
    requires FirstDifferenceAt(c1, c2, i) && FirstDifferenceAt(c1, c2, j)
    ensures i == j
  {
  }

  /**
   * OPENSSL_memcmp: 0 when the first `n` bytes agree, otherwise the
   * difference of the two unsigned bytes at the first index that differs.
   * The result depends on no byte past that index.
   */
  method Memcmp(c1: seq<byte>, c2: seq<byte>, n: nat) returns (ret: int)
    requires n <= |c1| && n <= |c2|
    ensures ret == 0 <==> c1[..n] == c2[..n]
    ensures ret != 0 ==>
      exists i: nat :: i < n && FirstDifferenceAt(c1, c2, i) && ret == c1[i] as int - c2[i] as int
  {
    var p: nat := 0;
    var rem := n;
    ret := 0;
    while rem != 0
      invariant p + rem == n
      invariant c1[..p] == c2[..p]
      invariant ret == 0
    {
      ret := c1[p] as int - c2[p] as int;
      if ret != 0 {
        assert FirstDifferenceAt(c1, c2, p);
        assert c1[..n][p] != c2[..n][p];
        return;
      }
      assert c1[..p + 1] == c1[..p] + [c1[p]] && c2[..p + 1] == c2[..p] + [c2[p]];
      rem, p := rem - 1, p + 1;
    }
  }

  /**
   * OPENSSL_strnlen: the index of the first NUL when it lies within the first
   * `maxlen` bytes, `maxlen` otherwise. The caller must make readable either
   * `maxlen` bytes or the string up to its NUL.
   */
  method Strnlen(str: seq<byte>, maxlen: nat) returns (len: nat)
    requires maxlen <= |str| || IsCString(str)
    ensures len <= maxlen && len <= |str|
    ensures forall i :: 0 <= i < len ==> str[i] != 0
    ensures len < maxlen ==> len < |str| && str[len] == 0
    ensures IsCString(str) ==> len == Min(maxlen, StrLen(str))
  {
    var p: nat := 0;
    var m := maxlen;
    while m != 0 && str[p] != 0
      invariant p + m == maxlen
      invariant p <= |str|
      invariant m != 0 ==> p < |str|
      invariant forall i :: 0 <= i < p ==> str[i] != 0
      decreases m
    {
      m, p := m - 1, p + 1;
    }
    len := p;
  }

  /** A byte sequence whose first NUL is at `k`. */
  lemma StrLenIs(s: seq<byte>, k: nat)
    requires k < |s| && s[k] == 0
    requires forall i :: 0 <= i < k ==> s[i] != 0
    ensures IsCString(s) && StrLen(s) == k
  {
  }

  /** Byte `i` of `buf` once `k` bytes of `src` and a NUL are written from `d` on. */
  function CopiedByte(buf: seq<byte>, d: nat, src: seq<byte>, k: nat, i: nat): byte
    requires i < |buf| && k <= |src|
  {
    if d <= i < d + k then src[i - d] else if i == d + k then 0 else buf[i]
  }

  /**
   * The buffer `buf` after strlcpy wrote `src` at offset `d` with `size`
   * bytes of room: nothing when `size` is 0, otherwise as much of `src` as
   * leaves room for a NUL, then the NUL.
   */
  function CopyImage(buf: seq<byte>, d: nat, src: seq<byte>, size: nat): (r: seq<byte>)
    requires IsCString(src) && d + size <= |buf|
    ensures |r| == |buf|
    ensures forall i :: 0 <= i < |buf| && !(d <= i < d + size) ==> r[i] == buf[i]
  {
    if size == 0 then buf
    else
      var k := Min(size - 1, StrLen(src));
      seq(|buf|, i requires 0 <= i < |buf| => CopiedByte(buf, d, src, k, i))
  }

  /** The byte strlcpy leaves at each index of the buffer. */
  lemma CopyImageAt(buf: seq<byte>, d: nat, src: seq<byte>, size: nat, i: nat)
    requires IsCString(src) && d + size <= |buf| && size > 0 && i < |buf|
    ensures |CopyImage(buf, d, src, size)| == |buf|
    ensures var k := Min(size - 1, StrLen(src));
      CopyImage(buf, d, src, size)[i] == if d <= i < d + k then src[i - d] else if i == d + k then 0 else buf[i]
  {
  }

  /**
   * What strlcpy leaves: the string now at `d` is the first
   * `min(size - 1, strlen(src))` bytes of `src`, NUL-terminated inside the
   * `size` bytes; it is all of `src` exactly when `strlen(src) < size`; no
   * byte before `d` or after the terminator changes.
   */
  lemma CopyImageString(buf: seq<byte>, d: nat, src: seq<byte>, size: nat)
    requires IsCString(src) && d + size <= |buf| && size > 0
    ensures var r, k := CopyImage(buf, d, src, size), Min(size - 1, StrLen(src));
      |r| == |buf| &&
      IsCString(r[d..d + size]) && StrLen(r[d..d + size]) == k &&
      r[d..d + k] == src[..k] &&
      (k == StrLen(src) <==> StrLen(src) < size) &&
      forall i :: 0 <= i < |buf| && !(d <= i <= d + k) ==> r[i] == buf[i]
  {
    var r, k := CopyImage(buf, d, src, size), Min(size - 1, StrLen(src));
    var seg := r[d..d + size];
    CopyImageAt(buf, d, src, size, d + k);
    forall i | 0 <= i < k ensures seg[i] == src[i] != 0 {
      CopyImageAt(buf, d, src, size, d + i);
    }
    StrLenIs(seg, k);
    forall i | 0 <= i < |buf| && !(d <= i <= d + k) ensures r[i] == buf[i] {
      CopyImageAt(buf, d, src, size, i);
    }
  }

  /**
   * OPENSSL_strlcpy: copies `src` into the `size` bytes at `dst[d..]`,
   * truncating and always NUL-terminating when `size > 0`, and returns
   * `strlen(src)` whatever `size` is.
   */
  method Strlcpy(dst: array<byte>, d: nat, src: seq<byte>, size: nat) returns (r: nat)
    requires IsCString(src)
    requires d + size <= dst.Length
    modifies dst
    ensures r == StrLen(src)
    ensures dst[..] == CopyImage(old(dst[..]), d, src, size)
  {
    var l: nat := 0;
    var sz := size;
    while sz > 1 && src[l] != 0
      invariant l + sz == size
      invariant size > 0 ==> sz > 0
      invariant l <= StrLen(src)
      invariant forall i :: 0 <= i < l ==> dst[d + i] == src[i]
      invariant forall i :: 0 <= i < dst.Length && !(d <= i < d + l) ==> dst[i] == old(dst[i])
    {
      dst[d + l] := src[l];
      l := l + 1;
      sz := sz - 1;
    }
    if sz != 0 {
      dst[d + l] := 0;
    }
    StrLenSuffix(src, l);
    r := l + StrLen(src[l..]);
    if size != 0 {
      assert l == Min(size - 1, StrLen(src));
      forall i | 0 <= i < dst.Length ensures dst[i] == CopyImage(old(dst[..]), d, src, size)[i] {
        CopyImageAt(old(dst[..]), d, src, size, i);
      }
    }
  }

  /**
   * OPENSSL_strlcpy when `src` lies inside the destination's own buffer, at
   * offset `s` after `dst`'s offset `d`. The copy reads `src` byte by byte
   * ahead of where it writes, so the result is that of copying the original
   * string; openssl_strerror_r relies on this.
   */
  method StrlcpyWithin(buf: array<byte>, d: nat, s: nat, size: nat) returns (r: nat)
    requires d < s <= buf.Length && IsCString(buf[s..])
    requires d + size <= buf.Length
    modifies buf
    ensures r == StrLen(old(buf[s..]))
    ensures buf[..] == CopyImage(old(buf[..]), d, old(buf[s..]), size)
  {
    ghost var src, before := buf[s..], buf[..];
    var l: nat := 0;
    var sz := size;
    while sz > 1 && buf[s + l] != 0
      invariant l + sz == size
      invariant size > 0 ==> sz > 0
      invariant l <= StrLen(src)
      invariant forall i :: 0 <= i < l ==> buf[d + i] == src[i]
      invariant forall i :: 0 <= i < buf.Length && !(d <= i < d + l) ==> buf[i] == before[i]
    {
      assert buf[s + l] == src[l];
      buf[d + l] := buf[s + l];
      l := l + 1;
      sz := sz - 1;
    }
    if sz != 0 {
      buf[d + l] := 0;
    }
    SuffixUnchanged(before, buf[..], s, l);
    StrLenSuffix(src, l);
    r := l + StrLen(buf[s + l..]);
    if size != 0 {
      CopyLoopDone(before, buf[..], d, src, size, l);
    }
  }

  /** Bytes from `s + l` on that were not written still read the rest of the string at `s`. */
  lemma SuffixUnchanged(before: seq<byte>, after: seq<byte>, s: nat, l: nat)
    requires s + l <= |before| == |after|
    requires forall i :: s + l <= i < |before| ==> after[i] == before[i]
    ensures after[s + l..] == before[s..][l..]
  {
  }

  /**
   * Once the copy loop has written `l = min(size - 1, strlen(src))` bytes of
   * `src` and a NUL after them, and nothing else, the buffer is the copy image.
   */
  lemma CopyLoopDone(before: seq<byte>, after: seq<byte>, d: nat, src: seq<byte>, size: nat, l: nat)
    requires IsCString(src) && d + size <= |before| && |after| == |before|
    requires size > 0 && l == Min(size - 1, StrLen(src))
    requires forall i :: 0 <= i < l ==> after[d + i] == src[i]
    requires after[d + l] == 0
    requires forall i :: 0 <= i < |before| && !(d <= i <= d + l) ==> after[i] == before[i]
    ensures after == CopyImage(before, d, src, size)
  {
    forall i | 0 <= i < |after| ensures after[i] == CopyImage(before, d, src, size)[i] {
      CopyImageAt(before, d, src, size, i);
    }
  }

  /**
   * OPENSSL_strlcat: appends `src` to the string held in the `size` bytes at
   * `dst[d..]`. When those bytes hold no NUL it writes nothing and returns
   * `size + strlen(src)`; otherwise it copies `src` from that NUL on, with the
   * room left, and returns `strlen(dst) + strlen(src)` for the original `dst`.
   */
  method Strlcat(dst: array<byte>, d: nat, src: seq<byte>, size: nat) returns (r: nat)
    requires IsCString(src)
    requires d + size <= dst.Length
    modifies dst
    ensures if IsCString(old(dst[d..d + size])) then
        var n := StrLen(old(dst[d..d + size]));
        r == n + StrLen(src) && dst[..] == CopyImage(old(dst[..]), d + n, src, size - n)
      else
        r == size + StrLen(src) && dst[..] == old(dst[..])
  {
    ghost var buf := dst[..];
    ghost var seg := buf[d..d + size];
    assert seg == old(dst[d..d + size]);
    var l: nat := 0;
    var sz := size;
    while sz > 0 && dst[d + l] != 0
      invariant l + sz == size
      invariant forall i :: 0 <= i < l ==> seg[i] != 0
    {
      assert seg[l] == dst[d + l];
      sz := sz - 1;
      l := l + 1;
    }
    ghost var found := sz != 0;
    if found {
      assert IsCString(seg) && StrLen(seg) == l by {
        assert seg[l] == dst[d + l] == 0;
        StrLenIs(seg, l);
      }
    } else {
      assert !IsCString(seg);
    }
    var copied := Strlcpy(dst, d + l, src, sz);
    r := l + copied;
  }

  /** The byte strlcat leaves at each of the `size` indices from `d`, when the string there has length `n`. */
  lemma CatImageAt(buf: seq<byte>, d: nat, src: seq<byte>, size: nat, n: nat, i: nat)
    requires IsCString(src) && d + size <= |buf| && n < size && i < size
    ensures var r, k := CopyImage(buf, d + n, src, size - n), Min(size - 1, n + StrLen(src));
      |r| == |buf| &&
      r[d + i] == if i < n then buf[d + i] else if i < k then src[i - n] else if i == k then 0 else buf[d + i]
  {
    CopyImageAt(buf, d + n, src, size - n, d + i);
  }

  /** After an append, the string at `d` ends at `min(size - 1, n + strlen(src))`. */
  lemma CatImageLength(buf: seq<byte>, d: nat, src: seq<byte>, size: nat, n: nat)
    requires IsCString(src) && d + size <= |buf|
    requires IsCString(buf[d..d + size]) && n == StrLen(buf[d..d + size])
    ensures var r, k := CopyImage(buf, d + n, src, size - n), Min(size - 1, n + StrLen(src));
      |r| == |buf| && IsCString(r[d..d + size]) && StrLen(r[d..d + size]) == k
  {
    var r, k := CopyImage(buf, d + n, src, size - n), Min(size - 1, n + StrLen(src));
    CatImageAt(buf, d, src, size, n, k);
    var rseg := r[d..d + size];
    forall i | 0 <= i < k ensures rseg[i] != 0 {
      CatImageAt(buf, d, src, size, n, i);
      if i < n {
        assert buf[d..d + size][i] != 0;
      }
    }
    StrLenIs(rseg, k);
  }

  /** After an append, the string at `d` is the old `n` bytes followed by `src`, cut to its length. */
  lemma CatImageContents(buf: seq<byte>, d: nat, src: seq<byte>, size: nat, n: nat)
    requires IsCString(src) && d + size <= |buf| && n < size
    ensures var r, k := CopyImage(buf, d + n, src, size - n), Min(size - 1, n + StrLen(src));
      |r| == |buf| && r[d..d + k] == (buf[d..d + n] + src)[..k]
  {
    var r, k := CopyImage(buf, d + n, src, size - n), Min(size - 1, n + StrLen(src));
    CatImageAt(buf, d, src, size, n, 0);
    var joined := buf[d..d + n] + src;
    forall i | 0 <= i < k ensures r[d..d + k][i] == joined[..k][i] {
      CatImageAt(buf, d, src, size, n, i);
    }
  }

  /**
   * What strlcat leaves when the `size` bytes at `d` hold a string of length
   * `n`: the string at `d` is that string followed by `src`, cut to
   * `min(size - 1, n + strlen(src))` bytes and NUL-terminated inside the
   * `size` bytes; nothing is cut exactly when the returned length
   * `n + strlen(src)` is below `size`.
   */
  lemma CatImageString(buf: seq<byte>, d: nat, src: seq<byte>, size: nat, n: nat)
    requires IsCString(src) && d + size <= |buf|
    requires IsCString(buf[d..d + size]) && n == StrLen(buf[d..d + size])
    ensures |CopyImage(buf, d + n, src, size - n)| == |buf|
    ensures var r, k := CopyImage(buf, d + n, src, size - n), Min(size - 1, n + StrLen(src));
      IsCString(r[d..d + size]) && StrLen(r[d..d + size]) == k
    ensures var r, k := CopyImage(buf, d + n, src, size - n), Min(size - 1, n + StrLen(src));
      r[d..d + k] == (buf[d..d + n] + src)[..k]
    ensures Min(size - 1, n + StrLen(src)) == n + StrLen(src) <==> n + StrLen(src) < size
  {
    CatImageLength(buf, d, src, size, n);
    CatImageContents(buf, d, src, size, n);
  }

  /** `c` is one of '0'..'9', 'a'..'f', 'A'..'F'. */
  predicate IsHexDigit(c: byte)
  {
    '0' as byte <= c <= '9' as byte || 'a' as byte <= c <= 'f' as byte || 'A' as byte <= c <= 'F' as byte
  }

  /**
   * OPENSSL_hexchar2int (ASCII): the value of a hexadecimal digit, the same
   * for either case of a letter, and -1 for every other byte.
   */
  function HexCharToInt(c: byte): (r: int)
    ensures -1 <= r <= 15
    ensures r == -1 <==> !IsHexDigit(c)
    ensures '0' as byte <= c <= '9' as byte ==> r == (c - '0' as byte) as int
    ensures 'a' as byte <= c <= 'f' as byte ==> r == (c - 'a' as byte) as int + 10
    ensures 'A' as byte <= c <= 'F' as byte ==> r == (c - 'A' as byte) as int + 10
  {
    match c as char
    case '0' => 0
    case '1' => 1
    case '2' => 2
    case '3' => 3
    case '4' => 4
    case '5' => 5
    case '6' => 6
    case '7' => 7
    case '8' => 8
    case '9' => 9
    case 'a' | 'A' => 0x0A
    case 'b' | 'B' => 0x0B
    case 'c' | 'C' => 0x0C
    case 'd' | 'D' => 0x0D
    case 'e' | 'E' => 0x0E
    case 'f' | 'F' => 0x0F
    case _ => -1
  }

  /** The lower-case and upper-case hexadecimal digit of a nibble. */
  function LowerHexDigit(v: nat): byte
    requires v < 16
  {
    if v < 10 then '0' as byte + v as byte else 'a' as byte + (v - 10) as byte
  }

  function UpperHexDigit(v: nat): byte
    requires v < 16
  {
    if v < 10 then '0' as byte + v as byte else 'A' as byte + (v - 10) as byte
  }

  /** Decoding inverts both encodings of a nibble. */
  lemma HexDigitRoundTrip(v: nat)
    requires v < 16
    ensures HexCharToInt(LowerHexDigit(v)) == v
    ensures HexCharToInt(UpperHexDigit(v)) == v
  {
  }

  /** Every byte that decodes is the encoding of its value, in one of the two cases. */
  lemma HexCharToIntInverse(c: byte)
    requires HexCharToInt(c) != -1
    ensures var v := HexCharToInt(c);
      0 <= v < 16 && (c == LowerHexDigit(v) || c == UpperHexDigit(v))
  {
  }
}
