/**
 * Names in messages: the decoder of compressed names (pkt_name) and the reader of uncompressed ones (wire_name_valid,
 * alias_wire_lower), against the definition of section 4.1.4 of RFC 1035.
 */
module NameDecoding {
  import opened Records

  type Octet = b: int | 0 <= b < 256
  type Octets = seq<Octet>
  type Label = seq<Octet>

  const NAME_MAX: nat := 255

  function Lower(c: Octet): Octet {
    if 65 <= c <= 90 then c + 32 else c
  }

  function LowerAll(s: Octets): (r: Octets)
    ensures |r| == |s| && forall i :: 0 <= i < |s| ==> r[i] == Lower(s[i])
  {
    seq(|s|, i requires 0 <= i < |s| => Lower(s[i]))
  }

  // ---- what a name at an offset is ----

  function Pointer(pkt: Octets, o: nat): nat
    requires o + 1 < |pkt| && pkt[o] >= 192
  {
    var high: int := pkt[o];
    (high - 192) * 256 + pkt[o + 1]
  }

  /**
   * The name at offset o is this list of labels (in lower case): a zero octet is the root; a length below 64 and that
   * many octets are a label, and the name goes on after it; a pointer stands for the name at an earlier offset.
   */
  ghost predicate Denotes(pkt: Octets, o: nat, labels: seq<Label>)
    decreases |labels|, o
  {
    && o < |pkt|
    && var l := pkt[o];
       if l >= 192 then o + 1 < |pkt| && Pointer(pkt, o) < o && Denotes(pkt, Pointer(pkt, o), labels)
       else if l == 0 then labels == []
       else && l < 64 && o + 1 + l <= |pkt| && labels != []
            && labels[0] == LowerAll(pkt[o + 1..o + 1 + l]) && Denotes(pkt, o + 1 + l, labels[1..])
  }

  /** The labels as one uncompressed name. */
  function Encode(labels: seq<Label>): Octets
    requires forall i :: 0 <= i < |labels| ==> |labels[i]| < 64
  {
    if labels == [] then [0] else [|labels[0]|] + labels[0] + Encode(labels[1..])
  }

  ghost predicate GoodLabel(l: Label) {
    1 <= |l| < 64 && forall k :: 0 <= k < |l| ==> Lower(l[k]) == l[k]
  }

  ghost predicate GoodLabels(labels: seq<Label>) {
    forall i :: 0 <= i < |labels| ==> GoodLabel(labels[i])
  }

  lemma {:induction false} DenotesGood(pkt: Octets, o: nat, labels: seq<Label>)
    requires Denotes(pkt, o, labels)
    ensures GoodLabels(labels)
    decreases |labels|, o
  {
    var l := pkt[o];
    if l >= 192 {
      DenotesGood(pkt, Pointer(pkt, o), labels);
    } else if l > 0 {
      DenotesGood(pkt, o + 1 + l, labels[1..]);
      forall i | 0 <= i < |labels| ensures GoodLabel(labels[i]) {
        if i > 0 { assert labels[i] == labels[1..][i - 1]; }
      }
    }
  }

  /** An offset has at most one name. */
  lemma {:induction false} DenotesUnique(pkt: Octets, o: nat, a: seq<Label>, b: seq<Label>)
    requires Denotes(pkt, o, a) && Denotes(pkt, o, b)
    ensures a == b
    decreases |a|, o
  {
    var l := pkt[o];
    if l >= 192 {
      DenotesUnique(pkt, Pointer(pkt, o), a, b);
    } else if l > 0 {
      DenotesUnique(pkt, o + 1 + l, a[1..], b[1..]);
      assert a == [a[0]] + a[1..] && b == [b[0]] + b[1..];
    }
  }

  // ---- the decoder ----

  /**
   * The labels of the name at o, when n octets of it are out already.  Every step makes the output longer or, on a
   * pointer, goes to an earlier offset: that is why it ends, although after a pointer the walk goes forward again.
   */
  function Labels(pkt: Octets, o: nat, n: nat): Option<seq<Label>>
    requires n <= NAME_MAX
    decreases NAME_MAX - n, o
  {
    if o >= |pkt| then None
    else
      var l := pkt[o];
      if l >= 192 then
        if o + 1 >= |pkt| || Pointer(pkt, o) >= o then None else Labels(pkt, Pointer(pkt, o), n)
      else if l >= 64 then None
      else if l == 0 then (if n + 1 > NAME_MAX then None else Some([]))
      else if o + 1 + l > |pkt| || n + 1 + l + 1 > NAME_MAX then None
      else
        var rest := Labels(pkt, o + 1 + l, n + 1 + l);
        if rest.None? then None else Some([LowerAll(pkt[o + 1..o + 1 + l])] + rest.value)
  }

  /** The offset after the name where it started: past its root octet, or past its first pointer. */
  function NameEnd(pkt: Octets, o: nat): nat
    decreases |pkt| - o
  {
    if o >= |pkt| then o
    else if pkt[o] >= 192 then o + 2
    else if pkt[o] == 0 || o + 1 + pkt[o] > |pkt| then o + 1
    else NameEnd(pkt, o + 1 + pkt[o])
  }

  ghost function Size(labels: seq<Label>): nat {
    if labels == [] then 1 else 1 + |labels[0]| + Size(labels[1..])
  }

  lemma {:induction false} LabelsSound(pkt: Octets, o: nat, n: nat)
    requires n <= NAME_MAX && Labels(pkt, o, n).Some?
    ensures Denotes(pkt, o, Labels(pkt, o, n).value)
    ensures n + Size(Labels(pkt, o, n).value) <= NAME_MAX
    decreases NAME_MAX - n, o
  {
    var l := pkt[o];
    if l >= 192 {
      LabelsSound(pkt, Pointer(pkt, o), n);
    } else if l > 0 {
      LabelsSound(pkt, o + 1 + l, n + 1 + l);
      assert Labels(pkt, o, n).value[1..] == Labels(pkt, o + 1 + l, n + 1 + l).value;
    }
  }

  lemma {:induction false} LabelsComplete(pkt: Octets, o: nat, n: nat, labels: seq<Label>)
    requires Denotes(pkt, o, labels) && n + Size(labels) <= NAME_MAX
    ensures Labels(pkt, o, n) == Some(labels)
    decreases |labels|, o
  {
    var l := pkt[o];
    if l >= 192 {
      LabelsComplete(pkt, Pointer(pkt, o), n, labels);
    } else if l > 0 {
      assert |labels[0]| == l && Size(labels[1..]) >= 1;
      LabelsComplete(pkt, o + 1 + l, n + 1 + l, labels[1..]);
      assert labels == [labels[0]] + labels[1..];
    }
  }

  /** The decoder accepts exactly the names of at most 255 octets, and gives their labels. */
  lemma DecodesExactlyNames(pkt: Octets, off: nat, labels: seq<Label>)
    ensures Labels(pkt, off, 0) == Some(labels) <==> Denotes(pkt, off, labels) && Size(labels) <= NAME_MAX
  {
    if Labels(pkt, off, 0) == Some(labels) { LabelsSound(pkt, off, 0); }
    if Denotes(pkt, off, labels) && Size(labels) <= NAME_MAX { LabelsComplete(pkt, off, 0, labels); }
  }

  // ---- the octets of the result ----

  /** One uncompressed name, in lower case, of at most 255 octets. */
  ghost predicate LowerName(w: Octets) {
    && |w| <= NAME_MAX
    && exists labels :: GoodLabels(labels) && w == Encode(labels)
  }

  lemma EncodeSize(labels: seq<Label>)
    requires GoodLabels(labels)
    ensures |Encode(labels)| == Size(labels)
  {
    if labels != [] {
      assert GoodLabel(labels[0]);
      EncodeSize(labels[1..]);
    }
  }

  /** pkt_name(): the decoded name and the offset after it. */
  datatype Decoded = Bad | Name(name: Octets, next: nat)

  /** The name's octets after those in out. */
  ghost function Result(pkt: Octets, off: nat): (d: Decoded)
    ensures d.Name? ==> LowerName(d.name)
  {
    var labels := Labels(pkt, off, 0);
    if labels.None? then Bad
    else
      LabelsSound(pkt, off, 0);
      DenotesGood(pkt, off, labels.value);
      EncodeSize(labels.value);
      Name(Encode(labels.value), NameEnd(pkt, off))
  }

  /** The whole name, when the octets in out are decoded and what is left is at o; next: the end, once a pointer was met. */
  ghost function Rest(pkt: Octets, o: nat, out: Octets, next: Option<nat>): Decoded
    requires |out| <= NAME_MAX
  {
    var labels := Labels(pkt, o, |out|);
    if labels.None? then Bad
    else
      LabelsSound(pkt, o, |out|);
      DenotesGood(pkt, o, labels.value);
      Name(out + Encode(labels.value), if next.None? then NameEnd(pkt, o) else next.value)
  }

  lemma {:induction false} RestAtStart(pkt: Octets, off: nat)
    ensures Rest(pkt, off, [], None) == Result(pkt, off)
  {
    if Result(pkt, off).Name? { assert [] + Result(pkt, off).name == Result(pkt, off).name; }
  }

  lemma {:induction false} RestAtPointer(pkt: Octets, o: nat, out: Octets, next: Option<nat>)
    requires |out| <= NAME_MAX && o + 1 < |pkt| && pkt[o] >= 192 && Pointer(pkt, o) < o
    ensures Rest(pkt, o, out, next) == Rest(pkt, Pointer(pkt, o), out, if next.None? then Some(o + 2) else next)
  {
  }

  lemma {:induction false} RestAtLabel(pkt: Octets, o: nat, out: Octets, next: Option<nat>)
    requires o < |pkt| && 0 < pkt[o] < 64 && o + 1 + pkt[o] <= |pkt| && |out| + 1 + pkt[o] + 1 <= NAME_MAX
    ensures Rest(pkt, o, out, next) ==
            Rest(pkt, o + 1 + pkt[o], out + [pkt[o]] + LowerAll(pkt[o + 1..o + 1 + pkt[o]]), next)
  {
    var l := pkt[o];
    var text := LowerAll(pkt[o + 1..o + 1 + l]);
    var rest := Labels(pkt, o + 1 + l, |out| + 1 + l);
    if rest.Some? {
      LabelsSound(pkt, o + 1 + l, |out| + 1 + l);
      DenotesGood(pkt, o + 1 + l, rest.value);
      var here := [text] + rest.value;
      assert Labels(pkt, o, |out|) == Some(here) && here[0] == text && here[1..] == rest.value;
      Regrouped(out, [l], text, Encode(rest.value));
    }
  }

  lemma {:induction false} Regrouped(a: Octets, b: Octets, c: Octets, d: Octets)
    ensures a + (b + c + d) == (a + b + c) + d
  {
  }

  /** Copies l octets from i, in lower case. */
  method CopyLower(p: Octets, i: nat, l: nat) returns (text: Octets)
    requires i + l <= |p|
    ensures text == LowerAll(p[i..i + l])
  {
    text := [];
    while |text| < l
      invariant |text| <= l
      invariant forall k :: 0 <= k < |text| ==> text[k] == Lower(p[i + k])
    {
      text := text + [Lower(p[i + |text|])];
    }
  }

  /** The loop of pkt_name(). */
  method PktName(pkt: Octets, off: nat) returns (d: Decoded)
    ensures d == Result(pkt, off)
  {
    var o: nat := off;
    var out: Octets := [];
    var next: Option<nat> := None;
    RestAtStart(pkt, off);
    while true
      invariant |out| < NAME_MAX && Rest(pkt, o, out, next) == Result(pkt, off)
      decreases NAME_MAX - |out|, o
    {
      if o >= |pkt| { return Bad; }
      var l: int := pkt[o];
      if l >= 192 {
        if o + 1 >= |pkt| { return Bad; }
        var ptr := (l - 192) * 256 + pkt[o + 1];
        if ptr >= o { return Bad; }
        RestAtPointer(pkt, o, out, next);
        if next.None? { next := Some(o + 2); }
        o := ptr;
        continue;
      }
      if l >= 64 { return Bad; }
      if l == 0 {
        return Name(out + [0], if next.None? then o + 1 else next.value);
      }
      if o + 1 + l > |pkt| || |out| + 1 + l + 1 > NAME_MAX { return Bad; }
      RestAtLabel(pkt, o, out, next);
      var text := CopyLower(pkt, o + 1, l);
      out := out + [pkt[o]] + text;
      o := o + 1 + pkt[o];
    }
  }

  // ---- uncompressed names ----

  /** wire_name_valid(): the length of the one uncompressed name at the start of p. */
  method WireNameValid(p: Octets) returns (used: Option<nat>)
    ensures used == ValidFrom(p, 0)
  {
    var i: nat := 0;
    while true
      invariant i <= NAME_MAX - 1 && ValidFrom(p, 0) == ValidFrom(p, i)
      decreases |p| - i
    {
      if i >= |p| { return None; }
      var l: int := p[i];
      if l == 0 { return Some(i + 1); }
      if l > 63 || |p| - (i + 1) < l { return None; }
      if i + 1 + l > NAME_MAX - 1 { return None; }
      i := i + 1 + l;
    }
  }

  function ValidFrom(p: Octets, i: nat): Option<nat>
    decreases |p| - i
  {
    if i >= |p| then None
    else if p[i] == 0 then (if i + 1 <= NAME_MAX then Some(i + 1) else None)
    else if p[i] > 63 || i + 1 + p[i] > |p| || i + 1 + p[i] > NAME_MAX - 1 then None
    else ValidFrom(p, i + 1 + p[i])
  }

  /** alias_wire_lower(): the octets in lower case, when they are exactly one name (a length is never a letter). */
  method WireLower(p: Octets) returns (out: Option<Octets>)
    ensures out == if ValidFrom(p, 0) == Some(|p|) then Some(LowerAll(p)) else None
  {
    var used := WireNameValid(p);
    if used.None? || used.value != |p| { return None; }
    var w: Octets := [];
    while |w| < |p|
      invariant |w| <= |p| && forall k :: 0 <= k < |w| ==> w[k] == Lower(p[k])
      invariant |w| < |p| ==> ValidFrom(p, |w|) == Some(|p|)
    {
      ValidGoesOn(p, |w|);
      var l := p[|w|];
      var text := CopyLower(p, |w| + 1, l);
      w := w + [l] + text;
    }
    assert w == LowerAll(p);
    return Some(w);
  }

  lemma {:induction false} ValidGoesOn(p: Octets, i: nat)
    requires i < |p| && ValidFrom(p, i) == Some(|p|)
    ensures p[i] < 64 && i + 1 + p[i] <= |p| && (i + 1 + p[i] < |p| ==> ValidFrom(p, i + 1 + p[i]) == Some(|p|))
  {
  }

  lemma {:induction false} LowerFromIsLower(p: Octets, i: nat)
    requires i < |p| && ValidFrom(p, i) == Some(|p|)
    ensures LowerFrom(p, i) == LowerAll(p[i..])
    decreases |p| - i
  {
    ValidGoesOn(p, i);
    var next := i + 1 + p[i];
    if next < |p| {
      LowerFromIsLower(p, next);
    } else {
      assert LowerFrom(p, next) == LowerAll(p[next..]) == [];
    }
    LowerParts(p, i, next);
  }

  lemma {:induction false} LowerParts(p: Octets, i: nat, next: nat)
    requires i < next <= |p| && p[i] < 64
    ensures [p[i]] + LowerAll(p[i + 1..next]) + LowerAll(p[next..]) == LowerAll(p[i..])
  {
    var whole, parts := LowerAll(p[i..]), [p[i]] + LowerAll(p[i + 1..next]) + LowerAll(p[next..]);
    forall k | 0 <= k < |whole| ensures parts[k] == whole[k] {
      assert whole[k] == Lower(p[i + k]);
      if k > 0 {
        assert parts[k] == Lower(p[i + k]) by {
          if i + k < next { assert p[i + 1..next][k - 1] == p[i + k]; } else { assert p[next..][i + k - next] == p[i + k]; }
        }
      }
    }
    assert parts == whole;
  }

  /** Length octets as they are, label octets in lower case. */
  function LowerFrom(p: Octets, i: nat): Octets
    decreases |p| - i
  {
    if i >= |p| || i + 1 + p[i] > |p| then []
    else [p[i]] + LowerAll(p[i + 1..i + 1 + p[i]]) + LowerFrom(p, i + 1 + p[i])
  }

  /** No pointer is met on the way from i. */
  ghost predicate Uncompressed(p: Octets, i: nat)
    decreases |p| - i
  {
    i >= |p| || (p[i] < 192 && (p[i] == 0 || i + 1 + p[i] > |p| || Uncompressed(p, i + 1 + p[i])))
  }

  lemma {:induction false} UncompressedDecode(p: Octets, i: nat)
    requires Uncompressed(p, i) && i < NAME_MAX
    ensures ValidFrom(p, i).Some? <==> Labels(p, i, i).Some?
    ensures ValidFrom(p, i).Some? ==> ValidFrom(p, i).value == NameEnd(p, i) <= |p|
    ensures ValidFrom(p, i) == Some(|p|) ==> GoodLabels(Labels(p, i, i).value) && LowerFrom(p, i) == Encode(Labels(p, i, i).value)
    decreases |p| - i
  {
    if i < |p| && 0 < p[i] < 64 && i + 1 + p[i] <= |p| && i + 1 + p[i] <= NAME_MAX - 1 {
      var l := p[i];
      UncompressedDecode(p, i + 1 + l);
      if ValidFrom(p, i) == Some(|p|) {
        var rest := Labels(p, i + 1 + l, i + 1 + l).value;
        var labels := [LowerAll(p[i + 1..i + 1 + l])] + rest;
        assert Labels(p, i, i) == Some(labels);
        assert labels[0] == LowerAll(p[i + 1..i + 1 + l]) && labels[1..] == rest;
        LabelsSound(p, i, i);
        DenotesGood(p, i, labels);
      }
    } else if i < |p| && p[i] == 0 {
      assert LowerAll(p[i + 1..i + 1]) == [];
      if i + 1 == |p| { assert LowerFrom(p, i) == [0]; }
    }
  }

  /** On octets without pointers the message decoder and the RDATA reader accept the same and give the same name. */
  lemma {:induction false} UncompressedAgree(p: Octets)
    requires Uncompressed(p, 0)
    ensures ValidFrom(p, 0) == Some(|p|) ==> Result(p, 0) == Name(LowerAll(p), |p|)
    ensures Result(p, 0).Name? && Result(p, 0).next == |p| ==> ValidFrom(p, 0) == Some(|p|)
  {
    UncompressedDecode(p, 0);
    if ValidFrom(p, 0) == Some(|p|) {
      LowerFromIsLower(p, 0);
      assert p[0..] == p;
    }
  }
}
