/**
 * The text of the line protocol of the database loader's check: fields are escaped, joined with TABs, split and unescaped
 * again.
 */
module LineText {
  import opened Records
  import opened NameDecoding

  const TAB: Octet := 9
  const BACKSLASH: Octet := 92

  // ---- escaping ----

  predicate Plain(c: Octet) {
    0x20 <= c < 0x7F && c != BACKSLASH
  }

  function EscapeOne(c: Octet): (r: Octets)
    ensures r != []
  {
    if Plain(c) then [c] else [BACKSLASH, 48 + c / 100, 48 + c / 10 % 10, 48 + c % 10]
  }

  function EscapeAll(s: Octets): Octets {
    if s == [] then [] else EscapeAll(s[..|s| - 1]) + EscapeOne(s[|s| - 1])
  }

  /** What the buffer holds: a text and a NUL after it. */
  ghost predicate Holds(buffer: seq<Octet>, text: Octets) {
    |text| < |buffer| && buffer[..|text|] == text && buffer[|text|] == 0
  }

  lemma {:induction false} EscapeStep(text: Octets, i: nat)
    requires i < |text|
    ensures EscapeAll(text[..i + 1]) == EscapeAll(text[..i]) + EscapeOne(text[i])
  {
    assert text[..i + 1][..i] == text[..i];
  }

  // ---- unescaping ----

  predicate Digit(c: Octet) {
    48 <= c <= 57
  }

  /** The octet that starts an escaped text, and how long it is written; nothing when the text is not an escaped one. */
  function UnescapeOne(s: Octets): (r: Option<(Octet, nat)>)
    requires s != []
    ensures r.Some? ==> 1 <= r.value.1 <= |s|
  {
    if s[0] == BACKSLASH then
      if |s| < 4 || !Digit(s[1]) || !Digit(s[2]) || !Digit(s[3]) then None
      else
        var d0: int, d1: int, d2: int := s[1], s[2], s[3];
        var v := (d0 - 48) * 100 + (d1 - 48) * 10 + (d2 - 48);
        if v > 255 then None else Some((v, 4))
    else if 0x20 <= s[0] < 0x7F then Some((s[0], 1))
    else None
  }

  function UnescapeAll(s: Octets): Option<Octets>
    decreases |s|
  {
    if s == [] then Some([])
    else
      var c := UnescapeOne(s);
      if c.None? then None
      else
        var rest := UnescapeAll(s[c.value.1..]);
        if rest.None? then None else Some([c.value.0] + rest.value)
  }

  /** What is written and what is still to come make up the whole. */
  ghost predicate SoFar(whole: Option<Octets>, done: Octets, rest: Option<Octets>) {
    if rest.None? then whole.None? else whole == Some(done + rest.value)
  }

  lemma {:induction false} SoFarStep(whole: Option<Octets>, done: Octets, s: Octets)
    requires s != [] && SoFar(whole, done, UnescapeAll(s))
    ensures UnescapeOne(s).None? ==> whole.None?
    ensures UnescapeOne(s).Some? ==> SoFar(whole, done + [UnescapeOne(s).value.0], UnescapeAll(s[UnescapeOne(s).value.1..]))
  {
    if UnescapeOne(s).Some? {
      var c := UnescapeOne(s).value;
      var rest := UnescapeAll(s[c.1..]);
      if rest.Some? { assert done + ([c.0] + rest.value) == (done + [c.0]) + rest.value; }
    }
  }

  // ---- round trips ----

  lemma {:induction false} EscapedOneIsRead(c: Octet, rest: Octets)
    ensures UnescapeOne(EscapeOne(c) + rest) == Some((c, |EscapeOne(c)|))
  {
    var s := EscapeOne(c) + rest;
    var x: int := c;
    if !Plain(c) { assert s[1] == 48 + x / 100 && s[2] == 48 + x / 10 % 10 && s[3] == 48 + x % 10; }
  }

  lemma {:induction false} LastApart(s: Octets, tail: Octets)
    requires s != []
    ensures s[..|s| - 1] + ([s[|s| - 1]] + tail) == s + tail
  {
  }

  lemma {:induction false} OneReadsAhead(c: Octet, rest: Octets)
    ensures UnescapeAll(EscapeOne(c) + rest) == if UnescapeAll(rest).None? then None else Some([c] + UnescapeAll(rest).value)
  {
    EscapedOneIsRead(c, rest);
    assert (EscapeOne(c) + rest)[|EscapeOne(c)|..] == rest;
  }

  lemma {:induction false} EscapedReadsAhead(s: Octets, rest: Octets)
    ensures UnescapeAll(EscapeAll(s) + rest) ==
            if UnescapeAll(rest).None? then None else Some(s + UnescapeAll(rest).value)
    decreases |s|
  {
    if s == [] {
      assert EscapeAll(s) + rest == rest;
      if UnescapeAll(rest).Some? { assert s + UnescapeAll(rest).value == UnescapeAll(rest).value; }
    } else {
      var n := |s| - 1;
      OneReadsAhead(s[n], rest);
      assert EscapeAll(s) + rest == EscapeAll(s[..n]) + (EscapeOne(s[n]) + rest);
      EscapedReadsAhead(s[..n], EscapeOne(s[n]) + rest);
      if UnescapeAll(rest).Some? { LastApart(s, UnescapeAll(rest).value); }
    }
  }

  /** Unescaping gives back what was escaped; what was cut gives back a prefix. */
  lemma {:induction false} RoundTrip(s: Octets, k: nat)
    requires k <= |s|
    ensures UnescapeAll(EscapeAll(s[..k])) == Some(s[..k]) && s[..k] <= s
  {
    EscapedReadsAhead(s[..k], []);
    assert EscapeAll(s[..k]) + [] == EscapeAll(s[..k]);
    assert s[..k] + [] == s[..k];
  }

  /** Escaped text is printable: no TAB, no line feed, no NUL, no other control octet. */
  lemma {:induction false} EscapedIsPrintable(s: Octets)
    ensures forall i :: 0 <= i < |EscapeAll(s)| ==> 0x20 <= EscapeAll(s)[i] < 0x7F
    decreases |s|
  {
    if s != [] { EscapedIsPrintable(s[..|s| - 1]); }
  }

  // ---- splitting ----

  function FirstTab(s: Octets): (e: nat)
    ensures e <= |s| && (forall i :: 0 <= i < e ==> s[i] != TAB) && (e < |s| ==> s[e] == TAB)
  {
    if s == [] || s[0] == TAB then 0 else FirstTab(s[1..]) + 1
  }

  function SplitAll(s: Octets): (r: seq<Octets>)
    ensures r != []
    decreases |s|
  {
    var e := FirstTab(s);
    if e == |s| then [s] else [s[..e]] + SplitAll(s[e + 1..])
  }

  /** Only TABs among the control octets. */
  ghost predicate NoControls(s: Octets) {
    forall i :: 0 <= i < |s| ==> s[i] >= 0x20 || s[i] == TAB
  }

  /** From a position on, the line reads the field and then a NUL. */
  ghost predicate FieldAt(line: seq<Octet>, p: nat, f: Octets) {
    p + |f| < |line| && line[p + |f|] == 0 && forall i :: 0 <= i < |f| ==> line[p + i] == f[i]
  }

  /** The field that starts at p ends at e, and the fields go on after it. */
  lemma {:induction false} FieldEnds(s: Octets, p: nat, e: nat)
    requires p <= e <= |s| && (forall i :: p <= i < e ==> s[i] != TAB) && (e < |s| ==> s[e] == TAB)
    ensures SplitAll(s[p..]) == if e == |s| then [s[p..]] else [s[p..e]] + SplitAll(s[e + 1..])
  {
    var rest := s[p..];
    var t := FirstTab(rest);
    assert forall i :: 0 <= i < |rest| ==> rest[i] == s[p + i];
    assert t == e - p;
    if e < |s| { assert rest[t + 1..] == s[e + 1..] && rest[..t] == s[p..e]; }
  }

  lemma JoinFirstField(f: Octets, rest: Octets)
    requires TAB !in f
    ensures SplitAll(f + [TAB] + rest) == [f] + SplitAll(rest)
  {
    var s := f + [TAB] + rest;
    forall i | 0 <= i < |f| ensures s[i] != TAB { assert s[i] == f[i] && f[i] in f; }
    FieldEnds(s, 0, |f|);
    assert s[0..] == s && s[0..|f|] == f && s[|f| + 1..] == rest;
  }

  function Join(fields: seq<Octets>): Octets {
    if fields == [] then []
    else if |fields| == 1 then fields[0]
    else fields[0] + [TAB] + Join(fields[1..])
  }

  function EscapeFields(fields: seq<Octets>): (r: seq<Octets>)
    ensures |r| == |fields| && forall i :: 0 <= i < |fields| ==> r[i] == EscapeAll(fields[i])
  {
    seq(|fields|, i requires 0 <= i < |fields| => EscapeAll(fields[i]))
  }

  /** Splitting undoes joining when no field has a TAB and there is a field. */
  lemma {:induction false} SplitUndoesJoin(fields: seq<Octets>)
    requires fields != [] && forall i :: 0 <= i < |fields| ==> TAB !in fields[i]
    ensures SplitAll(Join(fields)) == fields
    decreases |fields|
  {
    if |fields| == 1 {
      assert fields == [fields[0]] && FirstTab(fields[0]) == |fields[0]|;
    } else {
      SplitUndoesJoin(fields[1..]);
      JoinFirstField(fields[0], Join(fields[1..]));
    }
  }

  lemma {:induction false} NoTabEscaped(s: Octets)
    ensures TAB !in EscapeAll(s)
  {
    EscapedIsPrintable(s);
  }

  /** A line of any fields, at least one, comes back as these fields: the octets do not matter. */
  lemma {:induction false} LineRoundTrip(fields: seq<Octets>, i: nat)
    requires i < |fields|
    ensures |SplitAll(Join(EscapeFields(fields)))| == |fields|
    ensures UnescapeAll(SplitAll(Join(EscapeFields(fields)))[i]) == Some(fields[i])
  {
    var es := EscapeFields(fields);
    forall k | 0 <= k < |es| ensures TAB !in es[k] { NoTabEscaped(fields[k]); }
    SplitUndoesJoin(es);
    RoundTrip(fields[i], |fields[i]|);
    assert fields[i][..|fields[i]|] == fields[i];
  }

  /** From p on, the line is still what it was, up to its NUL. */
  ghost predicate Untouched(line: seq<Octet>, s: Octets, p: nat) {
    |line| == |s| + 1 && p <= |s| && line[|s|] == 0 && forall i :: p <= i < |s| ==> line[i] == s[i]
  }

  /** The fields found so far end before p. */
  ghost predicate Found(line: seq<Octet>, starts: seq<nat>, fs: seq<Octets>, p: nat) {
    |starts| == |fs| && forall i :: 0 <= i < |fs| ==> starts[i] + |fs[i]| < p && FieldAt(line, starts[i], fs[i])
  }

  /** The fields found so far, and those that start at p, are all there are. */
  ghost predicate Pieces(s: Octets, fs: seq<Octets>, p: nat) {
    p <= |s| && fs + SplitAll(s[p..]) == SplitAll(s)
  }

  ghost predicate NoControlsUpto(s: Octets, p: nat) {
    p <= |s| && forall i :: 0 <= i < p ==> s[i] >= 0x20 || s[i] == TAB
  }

  ghost predicate Printable(s: Octets, p: nat, e: nat) {
    p <= e <= |s| && forall i :: p <= i < e ==> s[i] >= 0x20
  }

  lemma {:induction false} FoundMore(line: seq<Octet>, s: Octets, starts: seq<nat>, fs: seq<Octets>, p: nat, e: nat)
    requires Untouched(line, s, p) && Found(line, starts, fs, p) && p <= e < |s|
    ensures Untouched(line[e := 0], s, e + 1) && Found(line[e := 0], starts + [p], fs + [s[p..e]], e + 1)
  {
    var line' := line[e := 0];
    forall i | 0 <= i < |fs| ensures FieldAt(line', starts[i], fs[i]) { assert FieldAt(line, starts[i], fs[i]); }
    assert FieldAt(line', p, s[p..e]);
  }

  lemma {:induction false} PiecesMore(s: Octets, fs: seq<Octets>, p: nat, e: nat)
    requires Pieces(s, fs, p) && NoControlsUpto(s, p) && Printable(s, p, e) && e < |s| && s[e] == TAB
    ensures Pieces(s, fs + [s[p..e]], e + 1) && NoControlsUpto(s, e + 1)
  {
    FieldEnds(s, p, e);
    assert fs + ([s[p..e]] + SplitAll(s[e + 1..])) == (fs + [s[p..e]]) + SplitAll(s[e + 1..]);
  }

  /** A line that ends: its last field reaches to the NUL. */
  lemma {:induction false} LastPiece(line: seq<Octet>, s: Octets, fs: seq<Octets>, p: nat)
    requires Pieces(s, fs, p) && NoControlsUpto(s, p) && Printable(s, p, |s|) && Untouched(line, s, p)
    ensures fs + [s[p..]] == SplitAll(s) && NoControls(s) && FieldAt(line, p, s[p..])
  {
    FieldEnds(s, p, |s|);
  }

  /** Before a further field there are not all of them. */
  lemma {:induction false} MoreToCome(s: Octets, fs: seq<Octets>, p: nat)
    requires Pieces(s, fs, p)
    ensures |fs| < |SplitAll(s)|
  {
  }

  ghost predicate FieldsAt(line: seq<Octet>, s: Octets, starts: seq<nat>) {
    |starts| == |SplitAll(s)| && forall i :: 0 <= i < |starts| ==> FieldAt(line, starts[i], SplitAll(s)[i])
  }

  lemma {:induction false} AllFound(line: seq<Octet>, s: Octets, starts: seq<nat>, fs: seq<Octets>, p: nat)
    requires p <= |s| && Found(line, starts, fs, p) && fs + [s[p..]] == SplitAll(s) && FieldAt(line, p, s[p..])
    ensures FieldsAt(line, s, starts + [p])
  {
    forall i | 0 <= i <= |fs| ensures FieldAt(line, (starts + [p])[i], SplitAll(s)[i]) {
      if i < |fs| { assert SplitAll(s)[i] == fs[i]; } else { assert SplitAll(s)[i] == s[p..]; }
    }
  }

  /** The whole state of the split, before the field at p. */
  ghost predicate Splitting(line: seq<Octet>, s: Octets, starts: seq<nat>, fs: seq<Octets>, p: nat) {
    Untouched(line, s, p) && Found(line, starts, fs, p) && Pieces(s, fs, p) && NoControlsUpto(s, p)
  }

  lemma {:induction false} SplitStart(line: seq<Octet>, s: Octets)
    requires line == s + [0]
    ensures Splitting(line, s, [], [], 0)
  {
    assert s[0..] == s && [] + SplitAll(s) == SplitAll(s);
  }

  lemma {:induction false} SplitMore(line: seq<Octet>, s: Octets, starts: seq<nat>, fs: seq<Octets>, p: nat, e: nat)
    requires Splitting(line, s, starts, fs, p) && Printable(s, p, e) && e < |s| && s[e] == TAB
    ensures e < |line| && Splitting(line[e := 0], s, starts + [p], fs + [s[p..e]], e + 1)
  {
    FoundMore(line, s, starts, fs, p, e);
    PiecesMore(s, fs, p, e);
  }

  lemma {:induction false} SplitEnd(line: seq<Octet>, s: Octets, starts: seq<nat>, fs: seq<Octets>, p: nat)
    requires Splitting(line, s, starts, fs, p) && Printable(s, p, |s|)
    ensures NoControls(s) && |SplitAll(s)| == |starts| + 1 && FieldsAt(line, s, starts + [p])
  {
    LastPiece(line, s, fs, p);
    AllFound(line, s, starts, fs, p);
  }
}
