/**
 * The code of the line protocol: it writes into buffers of a given size, ends every text with a NUL, and splits a line in
 * place.
 */
module LineProtocol {
  import opened Records
  import opened NameDecoding
  import opened LineText

  /** One octet, as it is or as a backslash and three digits. */
  method WriteOne(c: Octet, buffer: array<Octet>, o: nat) returns (o': nat)
    requires o + |EscapeOne(c)| < buffer.Length
    modifies buffer
    ensures o' == o + |EscapeOne(c)| && buffer[..o'] == old(buffer[..o]) + EscapeOne(c)
  {
    var ch: int := c;
    if Plain(c) {
      buffer[o] := c;
      o' := o + 1;
    } else {
      buffer[o], buffer[o + 1], buffer[o + 2], buffer[o + 3] := BACKSLASH, 48 + ch / 100, 48 + ch / 10 % 10, 48 + ch % 10;
      o' := o + 4;
    }
  }

  /**
   * chk_escape(): as many octets of the text, escaped, as fit with the NUL. A buffer of no size is left alone, and
   * nothing is said to be cut then.
   */
  method Escape(text: Octets, buffer: array<Octet>) returns (o: nat, cut: bool, ghost k: nat)
    modifies buffer
    ensures buffer.Length == 0 ==> o == 0 && !cut
    ensures buffer.Length > 0 ==>
      && k <= |text| && o == |EscapeAll(text[..k])| && Holds(buffer[..], EscapeAll(text[..k])) && (cut <==> k < |text|)
      && (k < |text| ==> |EscapeAll(text[..k + 1])| >= buffer.Length)
  {
    o, cut, k := 0, false, 0;
    if buffer.Length == 0 { return; }
    var i := 0;
    while i < |text|
      invariant 0 <= i <= |text| && o < buffer.Length
      invariant o == |EscapeAll(text[..i])| && buffer[..o] == EscapeAll(text[..i])
    {
      EscapeStep(text, i);
      if o + |EscapeOne(text[i])| >= buffer.Length { break; }
      o := WriteOne(text[i], buffer, o);
      i := i + 1;
    }
    buffer[o] := 0;
    k := i;
    cut := i < |text|;
  }

  /** chk_unescape(): the whole text, when it is an escaped one and fits with the NUL, and else a failure. */
  method Unescape(s: Octets, buffer: array<Octet>) returns (r: Option<nat>)
    modifies buffer
    ensures r.Some? <==> UnescapeAll(s).Some? && |UnescapeAll(s).value| < buffer.Length
    ensures r.Some? ==> r.value == |UnescapeAll(s).value| && Holds(buffer[..], UnescapeAll(s).value)
  {
    if buffer.Length == 0 { return None; }
    var o, i := 0, 0;
    ghost var whole := UnescapeAll(s);
    assert s[0..] == s;
    if whole.Some? { assert [] + whole.value == whole.value; }
    while i < |s|
      invariant 0 <= i <= |s| && 0 <= o < buffer.Length
      invariant SoFar(whole, buffer[..o], UnescapeAll(s[i..]))
      decreases |s| - i
    {
      var c := UnescapeOne(s[i..]);
      SoFarStep(whole, buffer[..o], s[i..]);
      if c.None? { return None; }
      if o + 1 >= buffer.Length { return None; }
      ghost var before := buffer[..o];
      buffer[o] := c.value.0;
      assert buffer[..o + 1] == before + [c.value.0];
      assert s[i..][c.value.1..] == s[i + c.value.1..];
      o := o + 1;
      i := i + c.value.1;
    }
    assert s[i..] == [];
    assert buffer[..o] + [] == buffer[..o];
    buffer[o] := 0;
    return Some(o);
  }

  /** chk_split(): the starts of the fields, at most max of them, in the line with its TABs overwritten; or a failure. */
  method Split(line: array<Octet>, max: int) returns (starts: Option<seq<nat>>)
    requires line.Length > 0 && line[line.Length - 1] == 0 && 0 !in line[..line.Length - 1]
    modifies line
    ensures var s := old(line[..line.Length - 1]); starts.Some? <==> NoControls(s) && |SplitAll(s)| <= max
    ensures var s := old(line[..line.Length - 1]); starts.Some? ==> FieldsAt(line[..], s, starts.value)
  {
    ghost var s: Octets := line[..line.Length - 1];
    ghost var fs: seq<Octets> := [];
    var found: seq<nat> := [];
    var p: nat := 0;
    assert line[..] == s + [0];
    SplitStart(line[..], s);
    while true
      invariant Splitting(line[..], s, found, fs, p)
      decreases line.Length - p
    {
      MoreToCome(s, fs, p);
      if |found| >= max { return None; }
      var e := FieldEnd(line, s, p);
      if e.None? { return None; }
      if e.value == line.Length - 1 {
        SplitEnd(line[..], s, found, fs, p);
        return Some(found + [p]);
      }
      SplitMore(line[..], s, found, fs, p, e.value);
      ghost var before: seq<Octet> := line[..];
      line[e.value] := 0;
      assert line[..] == before[e.value := 0];
      fs, found, p := fs + [s[p..e.value]], found + [p], e.value + 1;
    }
  }

  /** The inner loop: to the next TAB or NUL, over printable octets only. */
  method FieldEnd(line: array<Octet>, ghost s: Octets, p: nat) returns (e: Option<nat>)
    requires Untouched(line[..], s, p) && 0 !in s
    ensures e.Some? ==> Printable(s, p, e.value) && (e.value < |s| ==> s[e.value] == TAB)
    ensures e.None? ==> !NoControls(s)
  {
    var q := p;
    while line[q] != 0 && line[q] != TAB
      invariant Printable(s, p, q)
      decreases |s| - q
    {
      assert line[..][q] == s[q];
      if line[q] < 0x20 { return None; }
      q := q + 1;
    }
    assert q < |s| ==> line[..][q] == s[q];
    return Some(q);
  }
}
