/** C strings as the chat program handles them: byte buffers whose text ends at the
    first NUL byte. `char` is taken to be unsigned, so a byte is a value in 0..255. */
module CStrings {

  datatype Option<T> = None | Some(value: T)

  type Byte = b: int | 0 <= b < 256

  predicate NulFree(s: seq<Byte>) {
    forall k | 0 <= k < |s| :: s[k] != 0
  }

  /** The contents of a C string: its bytes before the terminating NUL. */
  type Text = s: seq<Byte> | NulFree(s)

  /** `strlen`: the index of the first NUL byte. A buffer without one ends at its length. */
  function StrLen(s: seq<Byte>): (n: nat)
    ensures n <= |s|
    ensures forall k | 0 <= k < n :: s[k] != 0
    ensures n < |s| ==> s[n] == 0
  {
    if s == [] || s[0] == 0 then 0 else 1 + StrLen(s[1..])
  }

  /** The first NUL is where strlen stops. */
  lemma StrLenAt(s: seq<Byte>, n: nat)
    requires n < |s| && s[n] == 0
    requires forall k | 0 <= k < n :: s[k] != 0
    ensures StrLen(s) == n
  {
  }

  /** The text a buffer holds, as `printf("%s")` or `strncmp` see it. */
  function Contents(s: seq<Byte>): (t: Text)
    ensures |t| <= |s| && forall k | 0 <= k < |t| :: t[k] == s[k]
    ensures |t| < |s| ==> s[|t|] == 0
  {
    s[..StrLen(s)]
  }

  /** A NUL-terminated buffer built from a text reads back as that text. */
  lemma ContentsOfTerminated(t: Text, tail: seq<Byte>)
    ensures StrLen(t + [0] + tail) == |t|
    ensures Contents(t + [0] + tail) == t
  {
    var s := t + [0] + tail;
    assert s[|t|] == 0;
    assert forall k | 0 <= k < |t| :: s[k] == t[k];
  }

  /** Bytes after a NUL do not change the text. */
  lemma {:induction false} ContentsOfPrefix(s: seq<Byte>, tail: seq<Byte>)
    requires StrLen(s) < |s|
    ensures StrLen(s + tail) == StrLen(s)
    ensures Contents(s + tail) == Contents(s)
  {
    if s[0] != 0 {
      assert (s + tail)[1..] == s[1..] + tail;
      ContentsOfPrefix(s[1..], tail);
    }
  }

  /** `strncmp(s, lit, |lit|) == 0` for a NUL-free literal `lit`: the text starts with `lit`. */
  predicate StartsWith(s: Text, lit: Text): (r: bool)
    ensures r <==> |lit| <= |s| && forall k | 0 <= k < |lit| :: s[k] == lit[k]
  {
    |lit| <= |s| && s[..|lit|] == lit
  }

  /** Two texts that differ at an index inside `lit` cannot both start with `lit`. */
  lemma DifferAt(s: Text, lit: Text, k: nat)
    requires k < |lit| && k < |s| && s[k] != lit[k]
    ensures !StartsWith(s, lit)
  {
    if |lit| <= |s| {
      assert s[..|lit|][k] != lit[k];
    }
  }

  /** The bytes of a string literal written in printable ASCII. */
  function Ascii(s: string): (r: Text)
    requires forall i | 0 <= i < |s| :: 0 < s[i] as int < 128
    ensures |r| == |s|
    ensures forall i | 0 <= i < |s| :: r[i] == s[i] as int
  {
    seq(|s|, i requires 0 <= i < |s| => s[i] as int)
  }

  /** `isdigit` in the C locale. */
  predicate IsDigit(b: Byte): (r: bool)
    ensures r ==> 0 < b < 128
  {
    '0' as int <= b <= '9' as int
  }

  predicate IsAsciiText(t: Text) {
    forall k | 0 <= k < |t| :: t[k] < 128
  }

  lemma AsciiIsAsciiText(s: string)
    requires forall i | 0 <= i < |s| :: 0 < s[i] as int < 128
    ensures IsAsciiText(Ascii(s))
  {
  }
}
