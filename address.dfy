/** The remote-host check of `main`: `isValidLPAddress` walks the host text with `strtok`
    and accepts four groups of one to three decimal digits; `allCharAreDigits` tests one
    group. The octet values are never compared with 255. */
module Address {
  import opened CStrings

  const DOT: Byte := '.' as int
  const NEWLINE: Byte := '\n' as int

  /** The delimiters of the first `strtok` call, ".\n". */
  const FIRST_DELIMS: set<Byte> := {DOT, NEWLINE}

  /** The delimiters of every later `strtok` call, ".". */
  const LATER_DELIMS: set<Byte> := {DOT}

  /** `strspn` (member) or `strcspn` (!member): the length of the leading run of s whose
      bytes are, or are not, in delims. */
  function Span(s: seq<Byte>, delims: set<Byte>, member: bool): (n: nat)
    ensures n <= |s|
    ensures forall k | 0 <= k < n :: (s[k] in delims) == member
    ensures n < |s| ==> (s[n] in delims) != member
  {
    if s == [] || (s[0] in delims) != member then 0 else 1 + Span(s[1..], delims, member)
  }

  /** What one `strtok` call yields: the token, and the text it will resume from. */
  datatype Cut = Cut(token: Text, rest: Text)

  /** One `strtok` call on the remaining text s: leading delimiters are skipped, the token
      runs up to the next delimiter, which is overwritten with NUL and stepped over; when
      only delimiters remain the call returns NULL. */
  function Strtok(s: Text, delims: set<Byte>): (r: Option<Cut>)
    ensures r.None? <==> forall k | 0 <= k < |s| :: s[k] in delims
    ensures r.Some? ==> r.value.token != [] && |r.value.rest| < |s|
    ensures r.Some? ==> forall k | 0 <= k < |r.value.token| :: r.value.token[k] !in delims
  {
    var start := Span(s, delims, true);
    if start == |s| then None
    else
      var end := start + Span(s[start..], delims, false);
      Some(Cut(s[start..end], if end < |s| then s[end + 1..] else []))
  }

  /** The tokens of repeated `strtok(NULL, delims)` calls resuming from s. */
  function Fields(s: Text, delims: set<Byte>): (ts: seq<Text>)
    ensures ts == [] <==> forall k | 0 <= k < |s| :: s[k] in delims
    ensures forall i | 0 <= i < |ts| :: IsField(ts[i], delims)
    decreases |s|
  {
    match Strtok(s, delims)
    case None => []
    case Some(c) => [c.token] + Fields(c.rest, delims)
  }

  /** The tokens `isValidLPAddress` visits: the first call splits on ".\n", the rest on ".". */
  function AddressTokens(s: Text): (ts: seq<Text>)
    ensures ts == [] <==> forall k | 0 <= k < |s| :: s[k] in FIRST_DELIMS
    ensures ts != [] ==> IsField(ts[0], FIRST_DELIMS)
    ensures forall i | 1 <= i < |ts| :: IsField(ts[i], LATER_DELIMS)
  {
    match Strtok(s, FIRST_DELIMS)
    case None => []
    case Some(c) => [c.token] + Fields(c.rest, LATER_DELIMS)
  }

  predicate AllDigits(t: Text) {
    forall k | 0 <= k < |t| :: IsDigit(t[k])
  }

  /** A group the validator lets through: one to three digits, any value. */
  predicate IsGroup(t: Text) {
    1 <= |t| <= 3 && AllDigits(t)
  }

  /** Exactly four tokens, each a group. */
  predicate FourGroups(ts: seq<Text>) {
    |ts| == 4 && forall i | 0 <= i < 4 :: IsGroup(ts[i])
  }

  /** What `isValidLPAddress` accepts. */
  predicate ValidAddress(s: Text) {
    FourGroups(AddressTokens(s))
  }

  /** allCharAreDigits (lets-talk.c:436-445). For a C string, `strlen` is the length of
      its text. */
  method AllCharAreDigits(s: Text) returns (all: bool)
    ensures all <==> forall k | 0 <= k < |s| :: IsDigit(s[k])
  {
    var i := 0;
    while i < |s|
      invariant 0 <= i <= |s|
      invariant forall k | 0 <= k < i :: IsDigit(s[k])
    {
      if !IsDigit(s[i]) {
        return false;
      }
      i := i + 1;
    }
    return true;
  }

  /** The tokens still to come once a strtok call has returned cut. */
  function Pending(cut: Option<Cut>): seq<Text> {
    match cut
    case None => []
    case Some(c) => [c.token] + Fields(c.rest, LATER_DELIMS)
  }

  /** One more strtok call moves the token it returned from the pending tokens to the
      seen ones. */
  lemma PendingAdvance(seen: seq<Text>, c: Cut)
    ensures (seen + Pending(Some(c)))[|seen|] == c.token
    ensures seen + Pending(Some(c)) == (seen + [c.token]) + Pending(Strtok(c.rest, LATER_DELIMS))
  {
    var later := Fields(c.rest, LATER_DELIMS);
    FieldsStep(c.rest);
    assert Pending(Some(c)) == [c.token] + later;
    MoveHead(seen, c.token, later);
  }

  lemma MoveHead(seen: seq<Text>, t: Text, later: seq<Text>)
    ensures (seen + ([t] + later))[|seen|] == t
    ensures seen + ([t] + later) == (seen + [t]) + later
  {
  }

  lemma FieldsStep(s: Text)
    ensures Fields(s, LATER_DELIMS) == Pending(Strtok(s, LATER_DELIMS))
  {
  }

  /** isValidLPAddress (lets-talk.c:411-433). */
  method IsValidLPAddress(address: Text) returns (valid: bool)
    ensures valid == ValidAddress(address)
  {
    var cut := Strtok(address, FIRST_DELIMS);
    var i := 0;
    ghost var tokens := AddressTokens(address);
    ghost var seen: seq<Text> := [];
    while cut.Some?
      invariant tokens == seen + Pending(cut)
      invariant i == |seen|
      invariant forall j | 0 <= j < |seen| :: IsGroup(seen[j])
      decreases if cut.Some? then |cut.value.rest| + 1 else 0
    {
      var token := cut.value.token;
      PendingAdvance(seen, cut.value);
      var digits := AllCharAreDigits(token);
      if !digits {
        BadTokenInvalid(tokens, i);
        return false;
      } else if |token| < 1 || |token| > 3 {
        BadTokenInvalid(tokens, i);
        return false;
      }
      cut := Strtok(cut.value.rest, LATER_DELIMS);
      GroupsSnoc(seen, token);
      seen := seen + [token];
      i := i + 1;
    }
    assert tokens == seen;
    return i == 4;
  }

  /** One more group after groups. */
  lemma GroupsSnoc(seen: seq<Text>, token: Text)
    requires forall j | 0 <= j < |seen| :: IsGroup(seen[j])
    requires IsGroup(token)
    ensures forall j | 0 <= j < |seen + [token]| :: IsGroup((seen + [token])[j])
  {
  }

  /** A token that is no group, wherever it stands, makes the address invalid. */
  lemma BadTokenInvalid(tokens: seq<Text>, i: nat)
    requires i < |tokens| && !IsGroup(tokens[i])
    ensures !FourGroups(tokens)
  {
  }

  const LOCALHOST: Text := Ascii("localhost")
  const LOOPBACK: Text := Ascii("127.0.0.1")

  /** The remote host `main` hands to the sender (lets-talk.c:53-62): "localhost" becomes
      the loopback address, any other text must pass the validator, and None stands for
      the usage message and exit. */
  function RemoteHost(arg: Text): (host: Option<Text>)
    ensures host.Some? <==> arg == LOCALHOST || ValidAddress(arg)
    ensures host.Some? ==> ValidAddress(host.value)
    ensures arg == LOCALHOST ==> host == Some(LOOPBACK)
    ensures arg != LOCALHOST && host.Some? ==> host.value == arg
  {
    LoopbackIsValid();
    if arg == LOCALHOST then Some(LOOPBACK)
    else if ValidAddress(arg) then Some(arg)
    else None
  }

  // ----- What the validator accepts -----

  /** A run of one or more dots. */
  predicate IsDots(s: Text) {
    s != [] && forall k | 0 <= k < |s| :: s[k] == DOT
  }

  /** A token strtok can return with these delimiters: non-empty, none of them inside. */
  predicate IsField(t: Text, delims: set<Byte>) {
    t != [] && forall k | 0 <= k < |t| :: t[k] !in delims
  }

  /** seps[0] + ts[0] + seps[1] + ts[1] + ...: the fields ts, each after its run of dots. */
  function Dotted(seps: seq<Text>, ts: seq<Text>): (r: Text)
    requires |seps| == |ts|
  {
    if ts == [] then [] else seps[0] + ts[0] + Dotted(seps[1..], ts[1..])
  }

  lemma {:induction false} SpanConcat(a: seq<Byte>, b: seq<Byte>, delims: set<Byte>, member: bool)
    requires forall k | 0 <= k < |a| :: (a[k] in delims) == member
    requires b == [] || (b[0] in delims) != member
    ensures Span(a + b, delims, member) == |a|
  {
    if a != [] {
      assert (a + b)[1..] == a[1..] + b;
      SpanConcat(a[1..], b, delims, member);
    }
  }

  /** strtok on delimiters, a token, then a delimiter or the end returns that token and
      resumes after that delimiter. */
  lemma StrtokOf(pre: Text, t: Text, post: Text, delims: set<Byte>)
    requires forall k | 0 <= k < |pre| :: pre[k] in delims
    requires IsField(t, delims)
    requires post == [] || post[0] in delims
    ensures Strtok(pre + t + post, delims) == Some(Cut(t, if post == [] then [] else post[1..]))
  {
    var s := pre + t + post;
    assert s == pre + (t + post);
    SpanConcat(pre, t + post, delims, true);
    assert s[|pre|..] == t + post;
    SpanConcat(t, post, delims, false);
    assert s[|pre|..|pre| + |t|] == t;
    if post != [] {
      assert s[|pre| + |t| + 1..] == post[1..];
    }
  }

  /** Repeated strtok calls on delimiters, a token, then a delimiter or the end: the first
      returns that token, the rest resume after that delimiter. */
  lemma FieldsOf(pre: Text, t: Text, post: Text)
    requires forall k | 0 <= k < |pre| :: pre[k] == DOT
    requires IsField(t, LATER_DELIMS)
    requires post == [] || post[0] == DOT
    ensures Fields(pre + t + post, LATER_DELIMS)
         == [t] + Fields(if post == [] then [] else post[1..], LATER_DELIMS)
  {
    StrtokOf(pre, t, post, LATER_DELIMS);
  }

  /** Dotted after its first run of dots and first field. */
  lemma DottedTail(seps: seq<Text>, ts: seq<Text>)
    requires |seps| == |ts| && ts != [] && IsDots(seps[0])
    ensures Dotted(seps, ts)[1..] == seps[0][1..] + ts[0] + Dotted(seps[1..], ts[1..])
    ensures Dotted(seps, ts)[0] == DOT
  {
    var sep: Text, t: Text, rest: Text := seps[0], ts[0], Dotted(seps[1..], ts[1..]);
    var whole := Dotted(seps, ts);
    assert whole == sep + t + rest;
    assert whole[0] == sep[0];
    assert whole[1..] == sep[1..] + t + rest;
  }

  /** Later strtok calls over dot runs and fields return exactly those fields. */
  lemma {:induction false} FieldsOfDotted(pre: Text, t: Text, seps: seq<Text>, ts: seq<Text>)
    requires forall k | 0 <= k < |pre| :: pre[k] == DOT
    requires IsField(t, LATER_DELIMS)
    requires |seps| == |ts|
    requires forall i | 0 <= i < |seps| :: IsDots(seps[i]) && IsField(ts[i], LATER_DELIMS)
    ensures Fields(pre + t + Dotted(seps, ts), LATER_DELIMS) == [t] + ts
    decreases |ts|
  {
    if ts == [] {
      FieldsOf(pre, t, []);
      assert Fields([], LATER_DELIMS) == [];
    } else {
      var pre': Text := seps[0][1..];
      var t': Text := ts[0];
      var seps', ts' := seps[1..], ts[1..];
      assert IsDots(seps[0]) && IsField(t', LATER_DELIMS);
      assert forall i | 0 <= i < |seps'| :: seps'[i] == seps[i + 1] && ts'[i] == ts[i + 1];
      FieldsOfDotted(pre', t', seps', ts');
      ConsTail(ts);
      DottedTail(seps, ts);
      var post := Dotted(seps, ts);
      assert post[1..] == pre' + t' + Dotted(seps', ts');
      FieldsOf(pre, t, post);
    }
  }

  /** Later strtok calls resuming right after the first dot of a Dotted text return its
      fields. */
  lemma FieldsAfterFirstDot(seps: seq<Text>, ts: seq<Text>)
    requires |seps| == |ts| && ts != [] && IsDots(seps[0])
    requires forall i | 0 <= i < |seps| :: IsDots(seps[i]) && IsField(ts[i], LATER_DELIMS)
    ensures Dotted(seps, ts)[0] == DOT
    ensures Fields(Dotted(seps, ts)[1..], LATER_DELIMS) == ts
  {
    DottedTail(seps, ts);
    var pre': Text := seps[0][1..];
    var t': Text := ts[0];
    var seps', ts' := seps[1..], ts[1..];
    assert IsDots(seps[0]) && IsField(t', LATER_DELIMS);
    assert forall i | 0 <= i < |seps'| :: seps'[i] == seps[i + 1] && ts'[i] == ts[i + 1];
    FieldsOfDotted(pre', t', seps', ts');
    ConsTail(ts);
  }

  /** The tokens of a host text made of a first field and dot-separated later fields. */
  lemma AddressTokensOfDotted(a: Text, seps: seq<Text>, ts: seq<Text>)
    requires IsField(a, FIRST_DELIMS)
    requires |seps| == |ts|
    requires forall i | 0 <= i < |seps| :: IsDots(seps[i]) && IsField(ts[i], LATER_DELIMS)
    ensures AddressTokens(a + Dotted(seps, ts)) == [a] + ts
  {
    var post := Dotted(seps, ts);
    if ts == [] {
      assert a + post == a;
      AddressTokensSingle(a);
    } else {
      FieldsAfterFirstDot(seps, ts);
      AddressTokensFirst(a, post);
    }
  }

  /** A lone field is the only token. */
  lemma AddressTokensSingle(a: Text)
    requires IsField(a, FIRST_DELIMS)
    ensures AddressTokens(a) == [a]
  {
    StrtokOf([], a, [], FIRST_DELIMS);
    assert [] + a + [] == a;
    assert Fields([], LATER_DELIMS) == [];
  }

  lemma ConsTail(ts: seq<Text>)
    requires ts != []
    ensures [ts[0]] + ts[1..] == ts
  {
  }

  lemma DottedCons(sep: Text, t: Text, seps: seq<Text>, ts: seq<Text>)
    requires |seps| == |ts|
    ensures Dotted([sep] + seps, [t] + ts) == sep + t + Dotted(seps, ts)
  {
    assert ([sep] + seps)[1..] == seps;
    assert ([t] + ts)[1..] == ts;
  }

  /** On any host text of fields separated by runs of dots, the validator accepts exactly
      when there are four fields and each is one to three digits. Values are not checked,
      and repeated dots count as one. */
  lemma DottedValidIff(a: Text, seps: seq<Text>, ts: seq<Text>)
    requires IsField(a, FIRST_DELIMS)
    requires |seps| == |ts|
    requires forall i | 0 <= i < |seps| :: IsDots(seps[i]) && IsField(ts[i], LATER_DELIMS)
    ensures ValidAddress(a + Dotted(seps, ts))
        <==> |ts| == 3 && IsGroup(a) && forall i | 0 <= i < 3 :: IsGroup(ts[i])
  {
    AddressTokensOfDotted(a, seps, ts);
    FourGroupsCons(a, ts);
  }

  lemma FourGroupsCons(a: Text, ts: seq<Text>)
    ensures FourGroups([a] + ts) <==> |ts| == 3 && IsGroup(a) && forall i | 0 <= i < 3 :: IsGroup(ts[i])
  {
    if |ts| == 3 {
      var tokens := [a] + ts;
      assert tokens[0] == a && tokens[1] == ts[0] && tokens[2] == ts[1] && tokens[3] == ts[2];
      assert (forall i | 0 <= i < 4 :: IsGroup(tokens[i]))
          <==> IsGroup(a) && IsGroup(ts[0]) && IsGroup(ts[1]) && IsGroup(ts[2]);
      assert (forall i | 0 <= i < 3 :: IsGroup(ts[i]))
          <==> IsGroup(ts[0]) && IsGroup(ts[1]) && IsGroup(ts[2]);
    }
  }

  /** Three fields, each after its own run of dots. */
  lemma DottedThree(d1: Text, x: Text, d2: Text, y: Text, d3: Text, z: Text)
    ensures Dotted([d1, d2, d3], [x, y, z]) == d1 + x + d2 + y + d3 + z
  {
    DottedCons(d3, z, [], []);
    assert [d3] + [] == [d3] && [z] + [] == [z];
    DottedCons(d2, y, [d3], [z]);
    assert [d2] + [d3] == [d2, d3] && [y] + [z] == [y, z];
    DottedCons(d1, x, [d2, d3], [y, z]);
    assert [d1] + [d2, d3] == [d1, d2, d3] && [x] + [y, z] == [x, y, z];
  }

  // ----- Host texts written as string literals -----

  /** Printable ASCII, so that Ascii applies. */
  predicate Printable(w: string) {
    forall i | 0 <= i < |w| :: 0 < w[i] as int < 128
  }

  /** Printable ASCII with no byte from delims: a field for those delimiters. */
  predicate Word(w: string, delims: set<Byte>) {
    && w != []
    && Printable(w)
    && (forall i | 0 <= i < |w| :: w[i] as int !in delims)
  }

  lemma WordField(w: string, delims: set<Byte>)
    requires Word(w, delims)
    ensures IsField(Ascii(w), delims)
  {
    var t := Ascii(w);
    forall k | 0 <= k < |t|
      ensures t[k] !in delims
    {
      assert t[k] == w[k] as int;
    }
  }

  /** Ascii of a concatenation is the concatenation of the Asciis. */
  lemma AsciiConcat(a: string, b: string)
    requires Printable(a) && Printable(b)
    ensures Printable(a + b)
    ensures Ascii(a + b) == Ascii(a) + Ascii(b)
  {
  }

  /** Ascii of two words joined by a dot. */
  lemma DotJoin(x: string, y: string)
    requires Printable(x) && Printable(y)
    ensures Printable(x + "." + y)
    ensures Ascii(x + "." + y) == Ascii(x) + [DOT] + Ascii(y)
  {
    assert Ascii(".") == [DOT];
    AsciiConcat(x, ".");
    AsciiConcat(x + ".", y);
  }

  /** Ascii of two words joined by a newline. */
  lemma NewlineJoin(x: string, y: string)
    requires Printable(x) && Printable(y)
    ensures Printable(x + "\n" + y)
    ensures Ascii(x + "\n" + y) == Ascii(x) + [NEWLINE] + Ascii(y)
  {
    assert Ascii("\n") == [NEWLINE];
    AsciiConcat(x, "\n");
    AsciiConcat(x + "\n", y);
  }

  /** Later strtok calls on a field, a dot and more return the field first and resume
      after the dot. */
  lemma FieldsCons(b: Text, rest: Text)
    requires IsField(b, LATER_DELIMS)
    ensures Fields(b + [DOT] + rest, LATER_DELIMS) == [b] + Fields(rest, LATER_DELIMS)
  {
    var post: Text := [DOT] + rest;
    assert [] + b + post == b + [DOT] + rest;
    assert post[1..] == rest;
    FieldsOf([], b, post);
  }

  /** Later strtok calls on a lone field return it alone. */
  lemma FieldsSingle(b: Text)
    requires IsField(b, LATER_DELIMS)
    ensures Fields(b, LATER_DELIMS) == [b]
  {
    FieldsOf([], b, []);
    assert [] + b + [] == b;
    assert Fields([], LATER_DELIMS) == [];
  }

  /** Later strtok calls on "c.d" return c and d. */
  lemma FieldsOfTwoWords(c: string, d: string)
    requires Word(c, LATER_DELIMS) && Word(d, LATER_DELIMS)
    ensures Printable(c + "." + d)
    ensures Fields(Ascii(c + "." + d), LATER_DELIMS) == [Ascii(c), Ascii(d)]
  {
    DotJoin(c, d);
    WordField(c, LATER_DELIMS);
    WordField(d, LATER_DELIMS);
    FieldsCons(Ascii(c), Ascii(d));
    FieldsSingle(Ascii(d));
  }

  /** Later strtok calls on "b.c.d" return b, c and d. */
  lemma FieldsOfThreeWords(b: string, c: string, d: string)
    requires Word(b, LATER_DELIMS) && Word(c, LATER_DELIMS) && Word(d, LATER_DELIMS)
    ensures Printable(b + "." + (c + "." + d))
    ensures Fields(Ascii(b + "." + (c + "." + d)), LATER_DELIMS) == [Ascii(b), Ascii(c), Ascii(d)]
  {
    var cd := c + "." + d;
    FieldsOfTwoWords(c, d);
    DotJoin(b, cd);
    WordField(b, LATER_DELIMS);
    FieldsCons(Ascii(b), Ascii(cd));
  }

  /** Four words joined by single dots pass the validator exactly when each is a group. */
  lemma FourWordsValidIff(a: string, b: string, c: string, d: string)
    requires Word(a, FIRST_DELIMS)
    requires Word(b, LATER_DELIMS) && Word(c, LATER_DELIMS) && Word(d, LATER_DELIMS)
    ensures Printable(a + "." + (b + "." + (c + "." + d)))
    ensures ValidAddress(Ascii(a + "." + (b + "." + (c + "." + d))))
        <==> IsGroup(Ascii(a)) && IsGroup(Ascii(b)) && IsGroup(Ascii(c)) && IsGroup(Ascii(d))
  {
    var rest := b + "." + (c + "." + d);
    FieldsOfThreeWords(b, c, d);
    DotJoin(a, rest);
    WordField(a, FIRST_DELIMS);
    var first: Text := Ascii(a);
    var later: Text := Ascii(rest);
    AddressTokensAfterDot(first, later);
    FourTokens(first, Ascii(b), Ascii(c), Ascii(d));
  }

  /** The first token and three more: four groups exactly when each is one. */
  lemma FourTokens(a: Text, b: Text, c: Text, d: Text)
    ensures FourGroups([a] + [b, c, d]) <==> IsGroup(a) && IsGroup(b) && IsGroup(c) && IsGroup(d)
  {
    var tokens := [a] + [b, c, d];
    assert tokens[0] == a && tokens[1] == b && tokens[2] == c && tokens[3] == d;
    assert (forall i | 0 <= i < 4 :: IsGroup(tokens[i]))
        <==> IsGroup(a) && IsGroup(b) && IsGroup(c) && IsGroup(d);
  }

  /** Ending the first word with a newline instead of a dot makes no difference:
      "a\nb.c.d" passes exactly when each word is a group. */
  lemma NewlineValidIff(a: string, b: string, c: string, d: string)
    requires Word(a, FIRST_DELIMS)
    requires Word(b, LATER_DELIMS) && Word(c, LATER_DELIMS) && Word(d, LATER_DELIMS)
    ensures Printable(a + "\n" + (b + "." + (c + "." + d)))
    ensures ValidAddress(Ascii(a + "\n" + (b + "." + (c + "." + d))))
        <==> IsGroup(Ascii(a)) && IsGroup(Ascii(b)) && IsGroup(Ascii(c)) && IsGroup(Ascii(d))
  {
    var rest := b + "." + (c + "." + d);
    FieldsOfThreeWords(b, c, d);
    NewlineJoin(a, rest);
    WordField(a, FIRST_DELIMS);
    var first: Text := Ascii(a);
    var later: Text := Ascii(rest);
    AddressTokensAfterNewline(first, later);
    FourTokens(first, Ascii(b), Ascii(c), Ascii(d));
  }

  /** Five words joined by dots are five tokens, so they never pass. */
  lemma FiveWordsRejected(a: string, b: string, c: string, d: string, e: string)
    requires Word(a, FIRST_DELIMS) && Word(b, LATER_DELIMS) && Word(c, LATER_DELIMS)
    requires Word(d, LATER_DELIMS) && Word(e, LATER_DELIMS)
    ensures Printable(a + "." + (b + "." + (c + "." + (d + "." + e))))
    ensures |AddressTokens(Ascii(a + "." + (b + "." + (c + "." + (d + "." + e)))))| == 5
    ensures !ValidAddress(Ascii(a + "." + (b + "." + (c + "." + (d + "." + e)))))
  {
    var later := c + "." + (d + "." + e);
    var rest := b + "." + later;
    FieldsOfThreeWords(c, d, e);
    DotJoin(b, later);
    DotJoin(a, rest);
    WordField(a, FIRST_DELIMS);
    WordField(b, LATER_DELIMS);
    AddressTokensAfterDot(Ascii(a), Ascii(rest));
    FieldsCons(Ascii(b), Ascii(later));
  }

  /** One to three decimal digits. */
  predicate GroupWord(w: string) {
    1 <= |w| <= 3 && forall i | 0 <= i < |w| :: '0' <= w[i] <= '9'
  }

  lemma GroupWordIsGroup(w: string)
    requires GroupWord(w)
    ensures Word(w, FIRST_DELIMS) && Word(w, LATER_DELIMS) && IsGroup(Ascii(w))
  {
  }

  /** Four groups of one to three digits joined by dots pass the validator. */
  lemma FourGroupWordsValid(a: string, b: string, c: string, d: string)
    requires GroupWord(a) && GroupWord(b) && GroupWord(c) && GroupWord(d)
    ensures Printable(a + "." + (b + "." + (c + "." + d)))
    ensures ValidAddress(Ascii(a + "." + (b + "." + (c + "." + d))))
  {
    GroupWordIsGroup(a);
    GroupWordIsGroup(b);
    GroupWordIsGroup(c);
    GroupWordIsGroup(d);
    FourWordsValidIff(a, b, c, d);
  }

  /** Three groups and a last word that is no group fail the validator. */
  lemma LastWordNotGroup(a: string, b: string, c: string, d: string)
    requires GroupWord(a) && GroupWord(b) && GroupWord(c) && Word(d, LATER_DELIMS)
    requires |d| > 3 || exists i | 0 <= i < |d| :: !('0' <= d[i] <= '9')
    ensures Printable(a + "." + (b + "." + (c + "." + d)))
    ensures !ValidAddress(Ascii(a + "." + (b + "." + (c + "." + d))))
  {
    GroupWordIsGroup(a);
    GroupWordIsGroup(b);
    GroupWordIsGroup(c);
    FourWordsValidIff(a, b, c, d);
    if |d| <= 3 {
      var i :| 0 <= i < |d| && !('0' <= d[i] <= '9');
      assert !IsDigit(Ascii(d)[i]);
    }
  }

  /** A newline may end the first field as a dot does: the later calls split on dots only. */
  lemma AddressTokensAfterNewline(a: Text, rest: Text)
    requires IsField(a, FIRST_DELIMS)
    ensures AddressTokens(a + [NEWLINE] + rest) == [a] + Fields(rest, LATER_DELIMS)
  {
    var post: Text := [NEWLINE] + rest;
    assert a + [NEWLINE] + rest == a + post;
    assert post[1..] == rest;
    AddressTokensFirst(a, post);
  }

  /** A dot ending the first field behaves as the newline does. */
  lemma AddressTokensAfterDot(a: Text, rest: Text)
    requires IsField(a, FIRST_DELIMS)
    ensures AddressTokens(a + [DOT] + rest) == [a] + Fields(rest, LATER_DELIMS)
  {
    var post: Text := [DOT] + rest;
    assert a + [DOT] + rest == a + post;
    assert post[1..] == rest;
    AddressTokensFirst(a, post);
  }

  /** The first strtok call returns the first field when a delimiter follows it; the later
      calls resume after that delimiter. */
  lemma AddressTokensFirst(a: Text, post: Text)
    requires IsField(a, FIRST_DELIMS)
    requires post != [] && post[0] in FIRST_DELIMS
    ensures AddressTokens(a + post) == [a] + Fields(post[1..], LATER_DELIMS)
  {
    StrtokOf([], a, post, FIRST_DELIMS);
    assert [] + a + post == a + post;
  }

  /** "127.0.0.1", the address "localhost" stands for, passes the validator. */
  lemma LoopbackIsValid()
    ensures ValidAddress(LOOPBACK)
  {
    assert "127.0.0.1" == "127" + "." + ("0" + "." + ("0" + "." + "1"));
    FourGroupWordsValid("127", "0", "0", "1");
  }

  /** The usage text's own example, "192.168.0.513", is accepted although 513 is no octet. */
  lemma UsageExampleAccepted()
    ensures ValidAddress(Ascii("192.168.0.513"))
  {
    assert "192.168.0.513" == "192" + "." + ("168" + "." + ("0" + "." + "513"));
    FourGroupWordsValid("192", "168", "0", "513");
  }

  /** Empty fields collapse: "1..2.3.4" is accepted. */
  lemma RepeatedDotsAccepted()
    ensures ValidAddress(Ascii("1..2.3.4"))
  {
    var one: Text, two: Text, three: Text, four: Text := [0x31], [0x32], [0x33], [0x34];
    var dot: Text, dots: Text := [DOT], [DOT, DOT];
    var seps, groups := [dots, dot, dot], [two, three, four];
    DottedThree(dots, two, dot, three, dot, four);
    assert Ascii("1..2.3.4") == one + (dots + two + dot + three + dot + four);
    assert forall i | 0 <= i < 3 :: IsDots(seps[i]) && IsField(groups[i], LATER_DELIMS);
    assert forall i | 0 <= i < 3 :: IsGroup(groups[i]);
    DottedValidIff(one, seps, groups);
  }

  /** Five groups are rejected. */
  lemma FiveGroupsRejected()
    ensures !ValidAddress(Ascii("1.2.3.4.5"))
  {
    assert "1.2.3.4.5" == "1" + "." + ("2" + "." + ("3" + "." + ("4" + "." + "5")));
    FiveWordsRejected("1", "2", "3", "4", "5");
  }

  /** A group with a letter is rejected. */
  lemma LetterGroupRejected()
    ensures !ValidAddress(Ascii("1.2.3.a"))
  {
    assert "1.2.3.a" == "1" + "." + ("2" + "." + ("3" + "." + "a"));
    assert !('0' <= "a"[0] <= '9');
    LastWordNotGroup("1", "2", "3", "a");
  }

  /** A group of four digits is rejected. */
  lemma LongGroupRejected()
    ensures !ValidAddress(Ascii("1.2.3.1234"))
  {
    assert "1.2.3.1234" == "1" + "." + ("2" + "." + ("3" + "." + "1234"));
    LastWordNotGroup("1", "2", "3", "1234");
  }

  /** The first token may end at a newline: "1\n2.3.4" is accepted. */
  lemma NewlineAfterFirstGroupAccepted()
    ensures ValidAddress(Ascii("1\n2.3.4"))
  {
    assert "1\n2.3.4" == "1" + "\n" + ("2" + "." + ("3" + "." + "4"));
    GroupWordIsGroup("1");
    GroupWordIsGroup("2");
    GroupWordIsGroup("3");
    GroupWordIsGroup("4");
    NewlineValidIff("1", "2", "3", "4");
  }

  /** Later tokens are split on dots only: a trailing newline, "1.2.3.4\n", makes the
      fourth group non-numeric. */
  lemma TrailingNewlineRejected()
    ensures !ValidAddress(Ascii("1.2.3.4\n"))
  {
    assert "1.2.3.4\n" == "1" + "." + ("2" + "." + ("3" + "." + "4\n"));
    var last := "4\n";
    assert last[1] == '\n';
    LastWordNotGroup("1", "2", "3", last);
  }
}
