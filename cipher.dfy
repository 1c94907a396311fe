/** The byte-shift obfuscation of `encryptString` and `decryptString`: every byte of a
    NUL-terminated buffer is moved up or down by ENCRYPTION_KEY, in place, with the loop
    bound `strlen(string)` evaluated afresh before every pass. */
module Cipher {
  import opened CStrings

  /** ENCRYPTION_KEY. */
  const KEY := 5

  /** `string[i] += d` on an unsigned char: addition modulo 256. */
  function Shift(b: Byte, d: int): (r: Byte) {
    (b + d) % 256
  }

  /** The buffer left by `for (i = 0; i < strlen(s); i++) s[i] += d`. Shifting stops at
      the terminating NUL, and also right after a byte that the shift itself turned into
      NUL, because the next `strlen` then ends the text there. */
  function Shifted(s: seq<Byte>, d: int): (r: seq<Byte>)
    ensures |r| == |s|
    ensures StrLen(r) <= StrLen(s)
    ensures forall k | 0 <= k < StrLen(r) :: r[k] == Shift(s[k], d)
    ensures forall k | StrLen(s) <= k < |s| :: r[k] == s[k]
  {
    if s == [] || s[0] == 0 then s
    else if Shift(s[0], d) == 0 then [0] + s[1..]
    else [Shift(s[0], d)] + Shifted(s[1..], d)
  }

  /** The buffer encryptString leaves: the bytes of its text shifted up by KEY, and the
      bytes from the terminating NUL on untouched. */
  function Encrypt(s: seq<Byte>): (r: seq<Byte>)
    ensures |r| == |s| && StrLen(r) <= StrLen(s)
    ensures forall k | 0 <= k < StrLen(r) :: r[k] == Shift(s[k], KEY)
    ensures forall k | StrLen(s) <= k < |s| :: r[k] == s[k]
  {
    Shifted(s, KEY)
  }

  /** The buffer decryptString leaves: the bytes of its text shifted down by KEY, and the
      bytes from the terminating NUL on untouched. */
  function Decrypt(s: seq<Byte>): (r: seq<Byte>)
    ensures |r| == |s| && StrLen(r) <= StrLen(s)
    ensures forall k | 0 <= k < StrLen(r) :: r[k] == Shift(s[k], -KEY)
    ensures forall k | StrLen(s) <= k < |s| :: r[k] == s[k]
  {
    Shifted(s, -KEY)
  }

  /** The loop `for (i = 0; i < strlen(s); i++)` exits with `i == m`: every byte before m
      was non-NUL when reached, none but the last shifted one became NUL, and at m the
      buffer ends, holds NUL, or its previous byte has just become NUL. */
  ghost predicate StopsAt(s: seq<Byte>, d: int, m: nat) {
    && m <= |s|
    && (forall k | 0 <= k < m :: s[k] != 0)
    && (forall k | 0 <= k < m - 1 :: Shift(s[k], d) != 0)
    && (m == |s| || s[m] == 0 || (0 < m && Shift(s[m - 1], d) == 0))
  }

  /** s with its first m bytes shifted by d and the rest untouched. */
  ghost function ShiftedBefore(s: seq<Byte>, d: int, m: nat): (r: seq<Byte>)
    requires m <= |s|
    ensures |r| == |s|
    ensures forall k | 0 <= k < |s| :: r[k] == if k < m then Shift(s[k], d) else s[k]
  {
    if m == 0 then s else [Shift(s[0], d)] + ShiftedBefore(s[1..], d, m - 1)
  }

  /** Shifted is exactly "shift the bytes the loop visits": the first m bytes, where m is
      the loop's exit index. */
  lemma {:induction false} StopsAtShifted(s: seq<Byte>, d: int, m: nat)
    requires StopsAt(s, d, m)
    ensures Shifted(s, d) == ShiftedBefore(s, d, m)
  {
    if s == [] || s[0] == 0 {
      assert m == 0;
    } else if Shift(s[0], d) == 0 {
      assert m == 1;
      assert ShiftedBefore(s[1..], d, 0) == s[1..];
    } else {
      var t := s[1..];
      assert StopsAt(t, d, m - 1) by {
        assert forall k | 0 <= k < m - 1 :: t[k] == s[k + 1];
      }
      StopsAtShifted(t, d, m - 1);
    }
  }

  /** The shared loop of encryptString and decryptString (lets-talk.c:449-460). */
  method ShiftString(a: array<Byte>, d: int)
    modifies a
    ensures a[..] == Shifted(old(a[..]), d)
  {
    var i := 0;
    while i < StrLen(a[..])
      invariant 0 <= i <= a.Length
      invariant forall k | 0 <= k < i :: a[k] == Shift(old(a[k]), d) && old(a[k]) != 0
      invariant forall k | 0 <= k < i - 1 :: a[k] != 0
      invariant forall k | i <= k < a.Length :: a[k] == old(a[k])
      decreases a.Length - i
    {
      assert a[..][i] != 0;
      assert 0 < i ==> a[..][i - 1] != 0;
      a[i] := Shift(a[i], d);
      i := i + 1;
    }
    ghost var s := old(a[..]);
    assert i < a.Length ==> a[..][StrLen(a[..])] == 0;
    assert StopsAt(s, d, i);
    StopsAtShifted(s, d, i);
    assert a[..] == ShiftedBefore(s, d, i);
  }

  /** encryptString (lets-talk.c:449-453). */
  method EncryptString(a: array<Byte>)
    modifies a
    ensures a[..] == Encrypt(old(a[..]))
  {
    ShiftString(a, KEY);
  }

  /** decryptString (lets-talk.c:456-460). */
  method DecryptString(a: array<Byte>)
    modifies a
    ensures a[..] == Decrypt(old(a[..]))
  {
    ShiftString(a, -KEY);
  }

  /** Bytes after the terminating NUL are never touched. */
  lemma {:induction false} ShiftedTerminated(t: Text, tail: seq<Byte>, d: int)
    ensures Shifted(t + [0] + tail, d) == Shifted(t + [0], d) + tail
  {
    if t != [] {
      var t': Text := t[1..];
      assert (t + [0] + tail)[1..] == t' + [0] + tail;
      assert (t + [0])[1..] == t' + [0];
      if Shift(t[0], d) != 0 {
        ShiftedTerminated(t', tail, d);
      }
    }
  }

  /** Encryption turns exactly 0xFB into NUL, decryption exactly 0x05. */
  lemma ShiftToNul(b: Byte)
    ensures Shift(b, KEY) == 0 <==> b == 0xFB
    ensures Shift(b, -KEY) == 0 <==> b == 0x05
  {
  }

  lemma ShiftInverse(b: Byte, d: int)
    ensures Shift(Shift(b, d), -d) == b
  {
  }

  /** Shifting by d and then by -d restores the buffer, and keeps the length of its text,
      when no byte of the text is one that the shift by d turns into NUL. */
  lemma {:induction false} ShiftRoundTrip(s: seq<Byte>, d: int)
    requires forall k | 0 <= k < StrLen(s) :: Shift(s[k], d) != 0
    ensures StrLen(Shifted(s, d)) == StrLen(s)
    ensures Shifted(Shifted(s, d), -d) == s
  {
    if s == [] || s[0] == 0 {
    } else {
      var t := s[1..];
      ShiftRoundTrip(t, d);
      var x := Shift(s[0], d);
      ShiftInverse(s[0], d);
      assert Shifted(s, d) == [x] + Shifted(t, d);
      assert ([x] + Shifted(t, d))[1..] == Shifted(t, d);
      assert Shifted([x] + Shifted(t, d), -d) == [s[0]] + t;
    }
  }

  /** The round trip of the transform holds for every buffer whose text has no 0xFB byte,
      and the text keeps its length. */
  lemma DecryptUndoesEncrypt(s: seq<Byte>)
    requires forall k | 0 <= k < StrLen(s) :: s[k] != 0xFB
    ensures StrLen(Encrypt(s)) == StrLen(s)
    ensures Decrypt(Encrypt(s)) == s
  {
    ShiftRoundTrip(s, KEY);
  }

  /** The reverse round trip holds for every buffer whose text has no 0x05 byte. */
  lemma EncryptUndoesDecrypt(s: seq<Byte>)
    requires forall k | 0 <= k < StrLen(s) :: s[k] != 0x05
    ensures StrLen(Decrypt(s)) == StrLen(s)
    ensures Encrypt(Decrypt(s)) == s
  {
    ShiftRoundTrip(s, -KEY);
  }

  /** A 0xFB byte at index j of the text wraps to NUL under encryption: the encrypted text
      ends at j, decryption restores only the bytes before j, and the bytes after it are
      left as they were. */
  lemma EncryptTruncates(s: seq<Byte>, j: nat)
    requires j < StrLen(s) && s[j] == 0xFB
    requires forall k | 0 <= k < j :: s[k] != 0xFB
    ensures StrLen(Encrypt(s)) == j
    ensures Decrypt(Encrypt(s)) == s[..j] + [0] + s[j + 1..]
    ensures Contents(Decrypt(Encrypt(s))) == s[..j]
  {
    var e := EncryptUpTo(s, j);
    StrLenAt(e, j);
    var t: Text := s[..j];
    DecryptTruncated(s, j, e);
    ContentsOfTerminated(t, s[j + 1..]);
  }

  /** Decryption of such an encrypted buffer stops at the NUL left at j. */
  lemma DecryptTruncated(s: seq<Byte>, j: nat, e: seq<Byte>)
    requires j < StrLen(s) && |e| == |s| && e[j] == 0
    requires forall k | 0 <= k < j :: e[k] == Shift(s[k], KEY) && e[k] != 0
    requires forall k | j < k < |s| :: e[k] == s[k]
    ensures Decrypt(e) == s[..j] + [0] + s[j + 1..]
  {
    forall k | 0 <= k < j
      ensures Shift(e[k], -KEY) != 0
    {
      ShiftInverse(s[k], KEY);
    }
    assert StopsAt(e, -KEY, j);
    StopsAtShifted(e, -KEY, j);
    DecryptUpTo(s, j, e);
  }

  /** Decrypting the bytes before j of such an encrypted buffer restores them; the NUL at
      j stays. */
  lemma DecryptUpTo(s: seq<Byte>, j: nat, e: seq<Byte>)
    requires j < |s| == |e| && e[j] == 0
    requires forall k | 0 <= k < j :: e[k] == Shift(s[k], KEY)
    requires forall k | j < k < |s| :: e[k] == s[k]
    ensures ShiftedBefore(e, -KEY, j) == s[..j] + [0] + s[j + 1..]
  {
    var r := ShiftedBefore(e, -KEY, j);
    var w := s[..j] + [0] + s[j + 1..];
    forall k | 0 <= k < |s|
      ensures r[k] == w[k]
    {
      if k < j {
        ShiftInverse(s[k], KEY);
      }
    }
  }

  /** Encryption of a text whose first 0xFB byte is at j shifts the bytes up to j alone. */
  lemma EncryptUpTo(s: seq<Byte>, j: nat) returns (e: seq<Byte>)
    requires j < StrLen(s) && s[j] == 0xFB
    requires forall k | 0 <= k < j :: s[k] != 0xFB
    ensures e == Encrypt(s) && |e| == |s|
    ensures forall k | 0 <= k < j :: e[k] == Shift(s[k], KEY) && e[k] != 0
    ensures e[j] == 0
    ensures forall k | j < k < |s| :: e[k] == s[k]
  {
    forall k | 0 <= k < j + 1
      ensures s[k] != 0 && (k < j ==> Shift(s[k], KEY) != 0)
    {
      ShiftToNul(s[k]);
    }
    assert StopsAt(s, KEY, j + 1);
    StopsAtShifted(s, KEY, j + 1);
    e := Encrypt(s);
    ShiftToNul(s[j]);
  }

  /** The text survives encryption and decryption if and only if it has no 0xFB byte. */
  lemma TextRoundTripIff(s: seq<Byte>)
    ensures Contents(Decrypt(Encrypt(s))) == Contents(s)
        <==> forall k | 0 <= k < StrLen(s) :: s[k] != 0xFB
  {
    if forall k | 0 <= k < StrLen(s) :: s[k] != 0xFB {
      DecryptUndoesEncrypt(s);
    } else {
      var j := FirstFB(s, StrLen(s));
      EncryptTruncates(s, j);
    }
  }

  /** The first 0xFB byte among the first n bytes, when there is one. */
  lemma FirstFB(s: seq<Byte>, n: nat) returns (j: nat)
    requires n <= |s| && exists k | 0 <= k < n :: s[k] == 0xFB
    ensures j < n && s[j] == 0xFB
    ensures forall k | 0 <= k < j :: s[k] != 0xFB
  {
    j :| 0 <= j < n && s[j] == 0xFB;
    while exists k | 0 <= k < j :: s[k] == 0xFB
      invariant j < n && s[j] == 0xFB
      decreases j
    {
      var earlier :| 0 <= earlier < j && s[earlier] == 0xFB;
      j := earlier;
    }
  }

  /** What the loop does to the first |a| bytes of a buffer does not depend on the bytes
      after them: the same bytes followed by a NUL end up the same. */
  lemma {:induction false} PrefixIndependent(a: seq<Byte>, b: seq<Byte>, d: int)
    ensures Shifted(a + b, d)[..|a|] == Shifted(a + [0], d)[..|a|]
  {
    if a != [] {
      if a[0] == 0 || Shift(a[0], d) == 0 {
        PrefixStopped(a, b, d);
        PrefixStopped(a, [0], d);
      } else {
        PrefixIndependent(a[1..], b, d);
        PrefixShifted(a, b, d);
        PrefixShifted(a, [0], d);
      }
    }
  }

  /** A first byte that is NUL, or becomes NUL, ends the loop after at most one pass. */
  lemma PrefixStopped(a: seq<Byte>, t: seq<Byte>, d: int)
    requires a != [] && (a[0] == 0 || Shift(a[0], d) == 0)
    ensures Shifted(a + t, d)[..|a|] == if a[0] == 0 then a else [0] + a[1..]
  {
    var x := a + t;
    assert x[0] == a[0] && x[1..] == a[1..] + t;
  }

  /** A first byte that stays non-NUL is shifted, and the loop goes on with the rest. */
  lemma PrefixShifted(a: seq<Byte>, t: seq<Byte>, d: int)
    requires a != [] && a[0] != 0 && Shift(a[0], d) != 0
    ensures Shifted(a + t, d)[..|a|] == [Shift(a[0], d)] + Shifted(a[1..] + t, d)[..|a| - 1]
  {
    var x := a + t;
    assert x[0] == a[0] && x[1..] == a[1..] + t;
  }
}
