/**
 * Bytes, machine words and the C byte-string operations the allocation
 * header relies on: little-endian pointer storage, strncpy, reading a
 * NUL-terminated label back, and memcpy's effect on a byte sequence.
 */
module Bytes {

  type Byte = x: int | 0 <= x < 256

  /** 2^64: one past the largest 64-bit pointer or size_t value. */
  const WordLimit: nat := 0x1_0000_0000_0000_0000

  /** A 64-bit unsigned machine word (a host pointer value or a size_t). */
  type Word = x: nat | x < WordLimit

  /** The largest size_t value. */
  const SizeMax: nat := WordLimit - 1

  const NUL: Byte := 0

  function Min(x: int, y: int): int { if x <= y then x else y }

  function Pow256(n: nat): (r: nat)
    ensures r > 0
  {
    if n == 0 then 1 else 256 * Pow256(n - 1)
  }

  /** The n-byte little-endian representation of x modulo 256^n. */
  function ToLE(x: nat, n: nat): (r: seq<Byte>)
    ensures |r| == n
  {
    if n == 0 then [] else [x % 256] + ToLE(x / 256, n - 1)
  }

  /** The unsigned value of a little-endian byte sequence. */
  function FromLE(s: seq<Byte>): nat
  {
    if s == [] then 0 else s[0] + 256 * FromLE(s[1..])
  }

  /** n little-endian bytes hold every value below 256^n. */
  lemma {:induction false} FromLEBound(s: seq<Byte>)
    ensures FromLE(s) < Pow256(|s|)
  {
    if s != [] {
      FromLEBound(s[1..]);
    }
  }

  /** Storing a value that fits in n bytes and loading it back gives the value. */
  lemma {:induction false} FromLEToLE(x: nat, n: nat)
    requires x < Pow256(n)
    ensures FromLE(ToLE(x, n)) == x
  {
    if n > 0 {
      var t := ToLE(x, n);
      assert t[1..] == ToLE(x / 256, n - 1);
      FromLEToLE(x / 256, n - 1);
    }
  }

  lemma PointerBytesHoldWords()
    ensures Pow256(8) == WordLimit
  {
    assert Pow256(1) == 256;
    assert Pow256(2) == 0x1_0000;
    assert Pow256(4) == 0x1_0000_0000 by {
      assert Pow256(3) == 0x100_0000;
    }
    assert Pow256(6) == 0x1_0000_0000_0000 by {
      assert Pow256(5) == 0x100_0000_0000;
    }
    assert Pow256(7) == 0x100_0000_0000_0000;
  }

  /** A 64-bit word stored in 8 little-endian bytes reads back as itself. */
  lemma WordRoundTrip(x: Word)
    ensures FromLE(ToLE(x, 8)) == x
  {
    PointerBytesHoldWords();
    FromLEToLE(x, 8);
  }

  /** Any 8 bytes read back as a 64-bit word. */
  lemma WordBytesAreWord(s: seq<Byte>)
    requires |s| == 8
    ensures FromLE(s) < WordLimit
  {
    PointerBytesHoldWords();
    FromLEBound(s);
  }

  /** n NUL bytes. */
  function Zeros(n: nat): seq<Byte>
  {
    seq(n, _ => NUL)
  }

  predicate NoNul(s: seq<Byte>)
  {
    forall i :: 0 <= i < |s| ==> s[i] != NUL
  }

  /** The C string a byte sequence holds: the bytes before its first NUL, or all of them. */
  function CString(s: seq<Byte>): seq<Byte>
  {
    if s == [] || s[0] == NUL then [] else [s[0]] + CString(s[1..])
  }

  /** The first n bytes of s, or all of s when it is shorter. */
  function Truncate(s: seq<Byte>, n: nat): (r: seq<Byte>)
  {
    if |s| <= n then s else s[..n]
  }

  /**
   * strncpy(dst, src, n) into an n-byte destination: the bytes of the C
   * string src up to n of them, then NUL padding up to n.
   */
  function StrNCpy(src: seq<Byte>, n: nat): (r: seq<Byte>)
    ensures |r| == n
  {
    if n == 0 then []
    else if src == [] || src[0] == NUL then Zeros(n)
    else [src[0]] + StrNCpy(src[1..], n - 1)
  }

  /** A C string holds no NUL and is a prefix of its source. */
  lemma {:induction false} CStringPrefix(s: seq<Byte>)
    ensures NoNul(CString(s))
    ensures |CString(s)| <= |s| && CString(s) == s[..|CString(s)|]
    ensures |CString(s)| < |s| ==> s[|CString(s)|] == NUL
  {
    if s != [] && s[0] != NUL {
      CStringPrefix(s[1..]);
    }
  }

  /** A sequence without NUL is its own C string. */
  lemma {:induction false} CStringOfNoNul(s: seq<Byte>)
    requires NoNul(s)
    ensures CString(s) == s
  {
    if s != [] {
      CStringOfNoNul(s[1..]);
    }
  }

  /**
   * strncpy writes the C string of its source, cut to n bytes, and NUL
   * padding after it.
   */
  lemma {:induction false} StrNCpyLayout(src: seq<Byte>, n: nat)
    ensures var c := Truncate(CString(src), n);
            StrNCpy(src, n) == c + Zeros(n - |c|)
  {
    if n > 0 && src != [] && src[0] != NUL {
      StrNCpyLayout(src[1..], n - 1);
      var c := Truncate(CString(src[1..]), n - 1);
      assert Truncate(CString(src), n) == [src[0]] + c;
    } else if n > 0 {
      assert CString(src) == [];
    }
  }

  /**
   * Reading back a label written with strncpy gives the label's C string
   * cut to n bytes.
   */
  lemma {:induction false} StrNCpyCString(src: seq<Byte>, n: nat)
    ensures CString(StrNCpy(src, n)) == Truncate(CString(src), n)
  {
    if n > 0 {
      if src == [] || src[0] == NUL {
        assert StrNCpy(src, n)[0] == NUL;
      } else {
        StrNCpyCString(src[1..], n - 1);
        assert StrNCpy(src, n)[1..] == StrNCpy(src[1..], n - 1);
      }
    }
  }

  /**
   * A label without NUL is stored as its first n bytes, followed by NUL
   * padding when it is shorter than n.
   */
  lemma StrNCpyOfLabel(text: seq<Byte>, n: nat)
    requires NoNul(text)
    ensures StrNCpy(text, n)[..Min(|text|, n)] == text[..Min(|text|, n)]
    ensures forall i :: Min(|text|, n) <= i < n ==> StrNCpy(text, n)[i] == NUL
  {
    CStringOfNoNul(text);
    StrNCpyLayout(text, n);
  }

  /**
   * memcpy's effect on a destination buffer d: the bytes of s written from
   * index at on, everything else left as it was.
   */
  function Splice(d: seq<Byte>, at: nat, s: seq<Byte>): (r: seq<Byte>)
    requires at + |s| <= |d|
  {
    d[..at] + s + d[at + |s|..]
  }

  /** memcpy leaves the buffer's length and every byte outside the copied range alone. */
  lemma SpliceFacts(d: seq<Byte>, at: nat, s: seq<Byte>)
    requires at + |s| <= |d|
    ensures |Splice(d, at, s)| == |d|
    ensures Splice(d, at, s)[at..at + |s|] == s
    ensures forall i :: 0 <= i < |d| && !(at <= i < at + |s|) ==> Splice(d, at, s)[i] == d[i]
  {
  }

  /** Copying one more byte after a copied prefix extends the copied prefix. */
  lemma SpliceExtend(d: seq<Byte>, at: nat, s: seq<Byte>, x: Byte)
    requires at + |s| < |d|
    ensures Splice(Splice(d, at, s), at + |s|, [x]) == Splice(d, at, s + [x])
  {
  }
}
