/**
 * Address match lists and what they mean: the full expansion of a list, in which every name of an acl is replaced by the
 * list of that acl, and the flags and the depth of an expansion. Lists that refer to themselves have no expansion.
 */
module AclExpansion {
  import opened Records
  import opened NameDecoding

  const MAX_DEPTH: nat := 32

  datatype Elem =
    | Addr(neg: bool, addr: Octets)
    | Key(neg: bool, key: Octets)
    | Name(neg: bool, name: Octets)
    | Sub(neg: bool, list: List)
  datatype List = List(elems: seq<Elem>)

  datatype Acl = Acl(name: Octets, list: List)
  datatype Config = Config(acls: seq<Acl>, keys: set<Octets>)

  /** The first acl of that name, in any case of letters. */
  function FindAcl(acls: seq<Acl>, name: Octets): (r: Option<nat>)
    ensures r.Some? ==> r.value < |acls| && LowerAll(acls[r.value].name) == LowerAll(name)
    ensures r.Some? ==> forall k :: 0 <= k < r.value ==> LowerAll(acls[k].name) != LowerAll(name)
    ensures r.None? ==> forall k :: 0 <= k < |acls| ==> LowerAll(acls[k].name) != LowerAll(name)
  {
    FindAclFrom(acls, name, 0)
  }

  function FindAclFrom(acls: seq<Acl>, name: Octets, i: nat): (r: Option<nat>)
    requires i <= |acls| && forall k :: 0 <= k < i ==> LowerAll(acls[k].name) != LowerAll(name)
    ensures r.Some? ==> r.value < |acls| && LowerAll(acls[r.value].name) == LowerAll(name)
    ensures r.Some? ==> forall k :: 0 <= k < r.value ==> LowerAll(acls[k].name) != LowerAll(name)
    ensures r.None? ==> forall k :: 0 <= k < |acls| ==> LowerAll(acls[k].name) != LowerAll(name)
    decreases |acls| - i
  {
    if i == |acls| then None
    else if LowerAll(acls[i].name) == LowerAll(name) then Some(i)
    else FindAclFrom(acls, name, i + 1)
  }

  // ---- expansions ----

  datatype XElem = XAddr(neg: bool, addr: Octets) | XKey(neg: bool, key: Octets) | XSub(neg: bool, list: Tree)
  datatype Tree = Tree(elems: seq<XElem>)

  /** t is the full expansion of the list. bare: a name that is no acl but a key stands for the key, unless negated. */
  ghost predicate Expands(c: Config, l: List, bare: bool, t: Tree)
    decreases t, 1
  {
    |t.elems| == |l.elems| && forall k :: 0 <= k < |t.elems| ==> ExpandsElem(c, l.elems[k], bare, t.elems[k])
  }

  ghost predicate ExpandsElem(c: Config, e: Elem, bare: bool, x: XElem)
    decreases x
  {
    match e
    case Addr(neg, addr) => x == XAddr(neg, addr)
    case Key(neg, key) => key in c.keys && x == XKey(neg, key)
    case Sub(neg, l) => x.XSub? && x.neg == neg && Expands(c, l, bare, x.list)
    case Name(neg, name) =>
      var i := FindAcl(c.acls, name);
      if i.Some? then x.XSub? && x.neg == neg && Expands(c, c.acls[i.value].list, true, x.list)
      else bare && !neg && name in c.keys && x == XKey(neg, name)
  }

  /** A list has at most one expansion. */
  lemma {:induction false} ExpansionUnique(c: Config, l: List, bare: bool, t: Tree, u: Tree)
    requires Expands(c, l, bare, t) && Expands(c, l, bare, u)
    ensures t == u
    decreases t, 1
  {
    forall k | 0 <= k < |t.elems| ensures t.elems[k] == u.elems[k] {
      assert ExpandsElem(c, l.elems[k], bare, t.elems[k]) && ExpandsElem(c, l.elems[k], bare, u.elems[k]);
      ExpandedElemUnique(c, l.elems[k], bare, t.elems[k], u.elems[k]);
    }
    assert t.elems == u.elems;
  }

  lemma {:induction false} ExpandedElemUnique(c: Config, e: Elem, bare: bool, x: XElem, y: XElem)
    requires ExpandsElem(c, e, bare, x) && ExpandsElem(c, e, bare, y)
    ensures x == y
    decreases x
  {
    match e
    case Sub(neg, l) => ExpansionUnique(c, l, bare, x.list, y.list);
    case Name(neg, name) =>
      var i := FindAcl(c.acls, name);
      if i.Some? { ExpansionUnique(c, c.acls[i.value].list, true, x.list, y.list); }
    case _ =>
  }

  // ---- what an expansion holds ----

  /** An address or prefix, at any depth. */
  ghost predicate HasAddr(t: Tree)
    decreases t, |t.elems| + 1
  {
    AddrUpto(t, |t.elems|)
  }

  /** One among the first n elements. */
  ghost predicate AddrUpto(t: Tree, n: nat)
    requires n <= |t.elems|
    decreases t, n
  {
    n > 0 && (AddrUpto(t, n - 1) || AddrIn(t.elems[n - 1]))
  }

  ghost predicate AddrIn(x: XElem) {
    x.XAddr? || (x.XSub? && HasAddr(x.list))
  }

  ghost predicate HasKey(t: Tree)
    decreases t, |t.elems| + 1
  {
    KeyUpto(t, |t.elems|)
  }

  ghost predicate KeyUpto(t: Tree, n: nat)
    requires n <= |t.elems|
    decreases t, n
  {
    n > 0 && (KeyUpto(t, n - 1) || KeyIn(t.elems[n - 1]))
  }

  ghost predicate KeyIn(x: XElem) {
    x.XKey? || (x.XSub? && HasKey(x.list))
  }

  /** A key with a negation on the way to it, its own included. under: there is one above. */
  ghost predicate HasNegKey(t: Tree, under: bool)
    decreases t, |t.elems| + 1
  {
    NegKeyUpto(t, |t.elems|, under)
  }

  ghost predicate NegKeyUpto(t: Tree, n: nat, under: bool)
    requires n <= |t.elems|
    decreases t, n
  {
    n > 0 && (NegKeyUpto(t, n - 1, under) || NegKeyIn(t.elems[n - 1], under))
  }

  ghost predicate NegKeyIn(x: XElem, under: bool) {
    (x.XKey? && (under || x.neg)) || (x.XSub? && HasNegKey(x.list, under || x.neg))
  }

  /** One more than the deepest list inside. */
  ghost function Depth(t: Tree): (d: nat)
    ensures d >= 1
    decreases t, |t.elems| + 1
  {
    DepthUpto(t, |t.elems|)
  }

  ghost function DepthUpto(t: Tree, n: nat): (d: nat)
    requires n <= |t.elems|
    ensures d >= 1
    decreases t, n
  {
    if n == 0 then 1
    else
      var d := DepthUpto(t, n - 1);
      var x := t.elems[n - 1];
      if x.XSub? && Depth(x.list) + 1 > d then Depth(x.list) + 1 else d
  }

  lemma {:induction false} SubIsLessDeep(t: Tree, n: nat, k: nat)
    requires k < n <= |t.elems| && t.elems[k].XSub?
    ensures Depth(t.elems[k].list) < DepthUpto(t, n)
    decreases n
  {
    if k < n - 1 { SubIsLessDeep(t, n - 1, k); }
  }

  /** What the first elements hold does not depend on the others. */
  lemma {:induction false} PrefixHolds(t: Tree, u: Tree, n: nat)
    requires n <= |t.elems| && n <= |u.elems| && t.elems[..n] == u.elems[..n]
    ensures DepthUpto(t, n) == DepthUpto(u, n) && AddrUpto(t, n) == AddrUpto(u, n)
    ensures KeyUpto(t, n) == KeyUpto(u, n) && NegKeyUpto(t, n, false) == NegKeyUpto(u, n, false)
    decreases n
  {
    if n > 0 {
      assert t.elems[n - 1] == t.elems[..n][n - 1] == u.elems[n - 1];
      assert t.elems[..n - 1] == t.elems[..n][..n - 1] == u.elems[..n - 1];
      PrefixHolds(t, u, n - 1);
    }
  }

  lemma {:induction false} NegKeyIsKey(t: Tree, n: nat, under: bool)
    requires n <= |t.elems| && NegKeyUpto(t, n, under)
    ensures KeyUpto(t, n)
    decreases t, n
  {
    if NegKeyUpto(t, n - 1, under) {
      NegKeyIsKey(t, n - 1, under);
    } else if t.elems[n - 1].XSub? {
      var sub := t.elems[n - 1].list;
      assert HasNegKey(sub, under || t.elems[n - 1].neg);
      NegKeyIsKey(sub, |sub.elems|, under || t.elems[n - 1].neg);
      assert HasKey(sub);
    }
  }

  /** Under a negation, every key is a negated one. */
  lemma {:induction false} UnderNegation(t: Tree, n: nat)
    requires n <= |t.elems|
    ensures NegKeyUpto(t, n, true) <==> KeyUpto(t, n)
    decreases t, n
  {
    if n > 0 {
      UnderNegation(t, n - 1);
      if t.elems[n - 1].XSub? {
        var sub := t.elems[n - 1].list;
        UnderNegation(sub, |sub.elems|);
        assert HasNegKey(sub, true) <==> HasKey(sub);
      }
    }
  }

  datatype Flags = Flags(addr: bool, key: bool, negKey: bool, depth: nat)

  ghost function FlagsOf(t: Tree): Flags {
    Flags(HasAddr(t), HasKey(t), HasNegKey(t, false), Depth(t))
  }

  // ---- cycles ----

  /** The list names the acl, itself or in a list written inside it. */
  ghost predicate Mentions(c: Config, l: List, i: nat) {
    exists k :: 0 <= k < |l.elems| && MentionsIn(c, l.elems[k], i)
  }

  ghost predicate MentionsIn(c: Config, e: Elem, i: nat) {
    (e.Name? && FindAcl(c.acls, e.name) == Some(i)) || (e.Sub? && Mentions(c, e.list, i))
  }

  /** The expansion of a list holds the expansion of each acl it names. */
  lemma {:induction false} MentionedIsInside(c: Config, l: List, bare: bool, t: Tree, i: nat) returns (u: Tree)
    requires Expands(c, l, bare, t) && Mentions(c, l, i)
    ensures i < |c.acls| && Expands(c, c.acls[i].list, true, u) && Depth(u) < Depth(t)
    decreases l
  {
    var k :| 0 <= k < |l.elems| && MentionsIn(c, l.elems[k], i);
    assert ExpandsElem(c, l.elems[k], bare, t.elems[k]);
    SubIsLessDeep(t, |t.elems|, k);
    if l.elems[k].Name? {
      u := t.elems[k].list;
    } else {
      u := MentionedIsInside(c, l.elems[k].list, bare, t.elems[k].list, i);
    }
  }

  ghost predicate NamesOneOf(c: Config, l: List, acls: set<nat>) {
    exists j :: j in acls && Mentions(c, l, j)
  }

  /** Each acl of the set names one of the set. */
  ghost predicate Cycle(c: Config, acls: set<nat>) {
    forall i :: i in acls ==> i < |c.acls| && NamesOneOf(c, c.acls[i].list, acls)
  }

  /** A list that names an acl of a cycle has no expansion, and so none of those acls has. */
  lemma {:induction false} CycleHasNoExpansion(c: Config, acls: set<nat>, l: List, bare: bool, t: Tree)
    requires Cycle(c, acls) && NamesOneOf(c, l, acls)
    ensures !Expands(c, l, bare, t)
    decreases Depth(t)
  {
    if Expands(c, l, bare, t) {
      var j :| j in acls && Mentions(c, l, j);
      var u := MentionedIsInside(c, l, bare, t, j);
      CycleHasNoExpansion(c, acls, c.acls[j].list, true, u);
    }
  }

  // ---- resolved lists ----

  /** A list with its names replaced, and with its flags and those of every list in it. */
  datatype RElem = RAddr(neg: bool, addr: Octets) | RKey(neg: bool, key: Octets) | RList(neg: bool, list: Resolved)
  datatype Resolved = Resolved(elems: seq<RElem>, flags: Flags)

  ghost predicate Annotated(r: Resolved, t: Tree) {
    r.flags == FlagsOf(t) && |r.elems| == |t.elems| && forall k :: 0 <= k < |r.elems| ==> AnnotatedElem(r.elems[k], t.elems[k])
  }

  ghost predicate AnnotatedElem(r: RElem, x: XElem) {
    match r
    case RAddr(neg, addr) => x == XAddr(neg, addr)
    case RKey(neg, key) => x == XKey(neg, key)
    case RList(neg, list) => x.XSub? && x.neg == neg && Annotated(list, x.list)
  }

  /** What a resolved element adds to the flags of its list. */
  function AddFlags(f: Flags, r: RElem): Flags {
    match r
    case RAddr(_, _) => f.(addr := true)
    case RKey(neg, key) => f.(key := true, negKey := f.negKey || neg)
    case RList(neg, list) =>
      var g := list.flags;
      Flags(f.addr || g.addr, f.key || g.key, f.negKey || g.negKey || (neg && g.key),
            if g.depth + 1 > f.depth then g.depth + 1 else f.depth)
  }

  lemma {:induction false} EmptyFlags()
    ensures FlagsOf(Tree([])) == Flags(false, false, false, 1)
  {
  }

  /** One more element. */
  lemma {:induction false} HoldsMore(xs: seq<XElem>, x: XElem)
    ensures var t, u := Tree(xs), Tree(xs + [x]);
      && HasAddr(u) == (HasAddr(t) || AddrIn(x)) && HasKey(u) == (HasKey(t) || KeyIn(x))
      && HasNegKey(u, false) == (HasNegKey(t, false) || NegKeyIn(x, false))
      && Depth(u) == if x.XSub? && Depth(x.list) + 1 > Depth(t) then Depth(x.list) + 1 else Depth(t)
  {
    var t, u := Tree(xs), Tree(xs + [x]);
    assert u.elems[..|xs|] == t.elems[..|xs|] && u.elems[|xs|] == x;
    PrefixHolds(t, u, |xs|);
  }

  /** Adding up the flags element by element gives those of the expansion. */
  lemma {:induction false} FlagsAddUp(xs: seq<XElem>, r: RElem, x: XElem)
    requires AnnotatedElem(r, x)
    ensures FlagsOf(Tree(xs + [x])) == AddFlags(FlagsOf(Tree(xs)), r)
  {
    HoldsMore(xs, x);
    if x.XSub? {
      UnderNegation(x.list, |x.list.elems|);
      assert HasNegKey(x.list, true) <==> HasKey(x.list);
      if HasNegKey(x.list, false) { NegKeyIsKey(x.list, |x.list.elems|, false); }
    }
  }

  /** The list has an expansion that is not too deep, and r is that, with the right flags everywhere. */
  ghost predicate IsResolved(c: Config, l: List, bare: bool, r: Resolved) {
    exists t :: Expands(c, l, bare, t) && Depth(t) <= MAX_DEPTH && Annotated(r, t)
  }

  ghost predicate IsResolvedElem(c: Config, e: Elem, bare: bool, r: RElem) {
    exists x :: ExpandsElem(c, e, bare, x) && AnnotatedElem(r, x)
  }

  /** The list has no expansion of that depth or less. */
  ghost predicate TooDeep(c: Config, l: List, bare: bool, depth: int) {
    forall t :: Expands(c, l, bare, t) ==> Depth(t) > depth
  }

  ghost predicate TooDeepElem(c: Config, e: Elem, bare: bool, depth: int) {
    forall x :: ExpandsElem(c, e, bare, x) ==> x.XSub? && Depth(x.list) > depth
  }

  /** The first elements of the list, resolved, and their flags. */
  ghost predicate Partly(c: Config, l: List, bare: bool, xs: seq<XElem>, rs: seq<RElem>, f: Flags) {
    && |xs| == |rs| <= |l.elems| && f == FlagsOf(Tree(xs))
    && forall k :: 0 <= k < |xs| ==> ExpandsElem(c, l.elems[k], bare, xs[k]) && AnnotatedElem(rs[k], xs[k])
  }

  lemma {:induction false} PartlyMore(c: Config, l: List, bare: bool, xs: seq<XElem>, rs: seq<RElem>, f: Flags, r: RElem) returns (x: XElem)
    requires Partly(c, l, bare, xs, rs, f) && |xs| < |l.elems| && IsResolvedElem(c, l.elems[|xs|], bare, r)
    ensures Partly(c, l, bare, xs + [x], rs + [r], AddFlags(f, r))
  {
    x :| ExpandsElem(c, l.elems[|xs|], bare, x) && AnnotatedElem(r, x);
    FlagsAddUp(xs, r, x);
  }

  lemma {:induction false} PartlyAll(c: Config, l: List, bare: bool, xs: seq<XElem>, rs: seq<RElem>, f: Flags)
    requires Partly(c, l, bare, xs, rs, f) && |xs| == |l.elems|
    ensures if f.depth <= MAX_DEPTH then IsResolved(c, l, bare, Resolved(rs, f)) else TooDeep(c, l, bare, MAX_DEPTH)
  {
    var t := Tree(xs);
    assert Expands(c, l, bare, t) && Annotated(Resolved(rs, f), t);
    forall u | Expands(c, l, bare, u) ensures u == t { ExpansionUnique(c, l, bare, t, u); }
  }

  /** One element that is too deep makes the list too deep. */
  lemma {:induction false} ElemTooDeep(c: Config, l: List, bare: bool, k: nat, depth: int)
    requires k < |l.elems| && TooDeepElem(c, l.elems[k], bare, depth)
    ensures TooDeep(c, l, bare, depth + 1)
  {
    forall t | Expands(c, l, bare, t) ensures Depth(t) > depth + 1 {
      assert ExpandsElem(c, l.elems[k], bare, t.elems[k]);
      SubIsLessDeep(t, |t.elems|, k);
    }
  }

  // ---- what is being resolved ----

  /** Every expansion of acl j holds one of the list, no deeper. */
  ghost predicate Around(c: Config, j: nat, l: List, bare: bool)
    requires j < |c.acls|
  {
    forall u :: Expands(c, c.acls[j].list, true, u) ==> Within(c, l, bare, Depth(u))
  }

  ghost predicate Within(c: Config, l: List, bare: bool, depth: nat) {
    exists t :: Expands(c, l, bare, t) && Depth(t) <= depth
  }

  ghost predicate AroundElem(c: Config, j: nat, e: Elem, bare: bool)
    requires j < |c.acls|
  {
    forall u :: Expands(c, c.acls[j].list, true, u) ==> WithinElem(c, e, bare, Depth(u))
  }

  ghost predicate WithinElem(c: Config, e: Elem, bare: bool, depth: nat) {
    exists x :: ExpandsElem(c, e, bare, x) && (x.XSub? ==> Depth(x.list) < depth)
  }

  lemma {:induction false} AroundItsElems(c: Config, j: nat, l: List, bare: bool, k: nat)
    requires j < |c.acls| && Around(c, j, l, bare) && k < |l.elems|
    ensures AroundElem(c, j, l.elems[k], bare)
  {
    forall u | Expands(c, c.acls[j].list, true, u) ensures WithinElem(c, l.elems[k], bare, Depth(u)) {
      var t :| Expands(c, l, bare, t) && Depth(t) <= Depth(u);
      assert ExpandsElem(c, l.elems[k], bare, t.elems[k]);
      if t.elems[k].XSub? { SubIsLessDeep(t, |t.elems|, k); }
    }
  }

  lemma {:induction false} AroundItsList(c: Config, j: nat, e: Elem, bare: bool)
    requires j < |c.acls| && AroundElem(c, j, e, bare)
    ensures e.Sub? ==> Around(c, j, e.list, bare)
    ensures e.Name? && FindAcl(c.acls, e.name).Some? ==> Around(c, j, c.acls[FindAcl(c.acls, e.name).value].list, true)
  {
    forall u | Expands(c, c.acls[j].list, true, u)
      ensures e.Sub? ==> Within(c, e.list, bare, Depth(u))
      ensures e.Name? && FindAcl(c.acls, e.name).Some? ==> Within(c, c.acls[FindAcl(c.acls, e.name).value].list, true, Depth(u))
    {
      var x :| ExpandsElem(c, e, bare, x) && (x.XSub? ==> Depth(x.list) < Depth(u));
    }
  }

  /** An acl that names itself, on whatever way, has no expansion. */
  lemma {:induction false} NoneInsideItself(c: Config, j: nat, e: Elem, bare: bool)
    requires j < |c.acls| && AroundElem(c, j, e, bare) && e.Name? && FindAcl(c.acls, e.name) == Some(j)
    ensures forall x :: !ExpandsElem(c, e, bare, x)
  {
    forall x | ExpandsElem(c, e, bare, x) ensures false {
      var u := x.list;
      assert Expands(c, c.acls[j].list, true, u) && WithinElem(c, e, bare, Depth(u));
      var y :| ExpandsElem(c, e, bare, y) && (y.XSub? ==> Depth(y.list) < Depth(u));
      ExpansionUnique(c, c.acls[j].list, true, u, y.list);
    }
  }
}
