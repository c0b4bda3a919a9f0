/** Bytes, 32-bit words and C strings laid out in little-endian byte memory. */
module Words {
  type Byte = x: int | 0 <= x < 0x100
  type Word = x: int | 0 <= x < 0x1_0000_0000

  const WORD_MODULUS: int := 0x1_0000_0000

  /** The word stored at `at`, least significant byte first. */
  function GetWord(m: seq<Byte>, at: nat): Word
    requires at + 4 <= |m|
  {
    var b0: int, b1: int, b2: int, b3: int := m[at], m[at + 1], m[at + 2], m[at + 3];
    b0 + 0x100 * b1 + 0x1_0000 * b2 + 0x100_0000 * b3
  }

  /** Memory after storing `w` at `at`: the word reads back, and no byte outside the four changes. */
  function PutWord(m: seq<Byte>, at: nat, w: Word): (r: seq<Byte>)
    requires at + 4 <= |m|
    ensures |r| == |m|
    ensures GetWord(r, at) == w
    ensures forall k :: 0 <= k < |m| && !(at <= k < at + 4) ==> r[k] == m[k]
  {
    var v: int := w;
    var q1, q2, q3 := v / 0x100, v / 0x100 / 0x100, v / 0x100 / 0x100 / 0x100;
    m[at := v % 0x100][at + 1 := q1 % 0x100][at + 2 := q2 % 0x100][at + 3 := q3]
  }

  method StoreWord(a: array<Byte>, at: nat, w: Word)
    requires at + 4 <= a.Length
    modifies a
    ensures a[..] == PutWord(old(a[..]), at, w)
  {
    var v: int := w;
    var q1, q2, q3 := v / 0x100, v / 0x100 / 0x100, v / 0x100 / 0x100 / 0x100;
    a[at] := v % 0x100;
    a[at + 1] := q1 % 0x100;
    a[at + 2] := q2 % 0x100;
    a[at + 3] := q3;
  }

  method LoadWord(a: array<Byte>, at: nat) returns (w: Word)
    requires at + 4 <= a.Length
    ensures w == GetWord(a[..], at)
  {
    var b0: int, b1: int, b2: int, b3: int := a[at], a[at + 1], a[at + 2], a[at + 3];
    w := b0 + 0x100 * b1 + 0x1_0000 * b2 + 0x100_0000 * b3;
  }

  /** The C string that starts at `at`: the bytes before the first NUL. */
  function CString(m: seq<Byte>, at: nat): seq<Byte>
    requires at <= |m|
    decreases |m| - at
  {
    if at == |m| || m[at] == 0 then [] else [m[at]] + CString(m, at + 1)
  }

  /** Memory after `strncpy(&m[at], s, n)`: exactly n bytes are written, with NULs after the end of s. */
  function StrNCpy(m: seq<Byte>, at: nat, s: seq<Byte>, n: nat): (r: seq<Byte>)
    requires at + n <= |m|
    ensures |r| == |m|
    ensures forall k :: 0 <= k < |m| && !(at <= k < at + n) ==> r[k] == m[k]
    ensures forall k :: 0 <= k < n ==> r[at + k] == if k < |s| then s[k] else 0
  {
    var field: seq<Byte> := seq(n, k requires 0 <= k < n => if k < |s| then s[k] else 0);
    m[..at] + field + m[at + n..]
  }

  /** A string read over a stretch without NULs is that stretch followed by the string behind it. */
  lemma {:induction false} CStringSplit(m: seq<Byte>, at: nat, n: nat)
    requires at + n <= |m|
    requires forall k :: at <= k < at + n ==> m[k] != 0
    ensures CString(m, at) == m[at..at + n] + CString(m, at + n)
    decreases n
  {
    if n > 0 {
      CStringSplit(m, at + 1, n - 1);
      assert m[at..at + n] == [m[at]] + m[at + 1..at + n];
    } else {
      assert m[at..at] == [];
    }
  }

  /** A string depends only on the bytes from its start on. */
  lemma {:induction false} CStringSame(m: seq<Byte>, m': seq<Byte>, at: nat)
    requires |m| == |m'| && at <= |m|
    requires forall k :: at <= k < |m| ==> m[k] == m'[k]
    ensures CString(m, at) == CString(m', at)
    decreases |m| - at
  {
    if at < |m| && m[at] != 0 {
      CStringSame(m, m', at + 1);
    }
  }

  /** The C string at `at` is s, with its NUL. */
  predicate Spells(m: seq<Byte>, at: nat, s: seq<Byte>) {
    at + |s| < |m| && m[at..at + |s|] == s && m[at + |s|] == 0
  }

  lemma SpelledIsRead(m: seq<Byte>, at: nat, s: seq<Byte>)
    requires Spells(m, at, s) && 0 !in s
    ensures CString(m, at) == s
  {
    forall k | at <= k < at + |s| ensures m[k] != 0 {
      assert m[k] == m[at..at + |s|][k - at];
    }
    CStringSplit(m, at, |s|);
  }

  /**
   * A name copied with strncpy into a field of n + 1 bytes whose last byte is left as it was arrives intact, NUL and
   * all, exactly when it is shorter than n, or when the stale bytes behind the copied ones spell its rest and end it.
   */
  lemma NameArrivesIff(m: seq<Byte>, at: nat, name: seq<Byte>, n: nat)
    requires at + n <= |m|
    ensures Spells(StrNCpy(m, at, name, n), at, name) <==> |name| < n || Spells(m, at + n, name[n..])
  {
    var r := StrNCpy(m, at, name, n);
    if |name| < n {
      assert r[at..at + |name|] == name;
    } else if at + |name| < |m| {
      assert r[at..at + |name|] == name[..n] + m[at + n..at + |name|];
      assert name == name[..n] + name[n..];
      if r[at..at + |name|] == name {
        assert m[at + n..at + |name|] == r[at..at + |name|][n..];
      }
    }
  }

  /** 28 bytes, of which the last four happen to be there already: no NUL ends them. */
  lemma UnendedName(m: seq<Byte>, name: seq<Byte>)
    requires |m| == 32 && |name| == 28 && m[28..32] == name[24..]
    ensures StrNCpy(m, 4, name, 24)[4..] == name && !Spells(StrNCpy(m, 4, name, 24), 4, name)
  {
    var r := StrNCpy(m, 4, name, 24);
    assert r[4..28] == name[..24] && r[28..32] == m[28..32];
    assert r[4..] == r[4..28] + r[28..32];
  }
}
