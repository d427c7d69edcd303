/**
 * The acl blocks while they are being resolved.
 */
module AclStates {
  import opened Records
  import opened AclExpansion

  datatype AclState = Unresolved | InProgress | Done(list: Resolved)

  ghost predicate ValidStates(c: Config, s: seq<AclState>) {
    |s| == |c.acls| && forall i :: 0 <= i < |s| && s[i].Done? ==> IsResolved(c, c.acls[i].list, true, s[i].list)
  }

  ghost predicate NoneInProgress(s: seq<AclState>) {
    forall i :: 0 <= i < |s| ==> !s[i].InProgress?
  }

  /** Only acls that were open before are done now. */
  ghost predicate Later(s: seq<AclState>, t: seq<AclState>) {
    |t| == |s| && forall i :: 0 <= i < |s| ==> t[i] == s[i] || (s[i].Unresolved? && t[i].Done?)
  }

  ghost function Open(s: seq<AclState>): nat {
    if s == [] then 0 else Open(s[..|s| - 1]) + if s[|s| - 1].Unresolved? then 1 else 0
  }

  /** Every acl in progress is around the list. */
  ghost predicate AllAround(c: Config, s: seq<AclState>, l: List, bare: bool) {
    |s| == |c.acls| && forall j :: 0 <= j < |s| && s[j].InProgress? ==> Around(c, j, l, bare)
  }

  ghost predicate AllAroundElem(c: Config, s: seq<AclState>, e: Elem, bare: bool) {
    |s| == |c.acls| && forall j :: 0 <= j < |s| && s[j].InProgress? ==> AroundElem(c, j, e, bare)
  }

  lemma LaterSame(s: seq<AclState>)
    ensures Later(s, s)
  {
  }

  lemma {:induction false} LaterOpen(s: seq<AclState>, t: seq<AclState>)
    requires Later(s, t)
    ensures Open(t) <= Open(s)
    decreases |s|
  {
    if s != [] { LaterOpen(s[..|s| - 1], t[..|t| - 1]); }
  }

  lemma {:induction false} ElemAround(c: Config, s: seq<AclState>, t: seq<AclState>, l: List, bare: bool, k: nat)
    requires AllAround(c, s, l, bare) && Later(s, t) && k < |l.elems|
    ensures AllAroundElem(c, t, l.elems[k], bare)
  {
    forall j | 0 <= j < |t| && t[j].InProgress? ensures AroundElem(c, j, l.elems[k], bare) {
      AroundItsElems(c, j, l, bare, k);
    }
  }

  lemma {:induction false} ListAround(c: Config, s: seq<AclState>, e: Elem, bare: bool)
    requires AllAroundElem(c, s, e, bare)
    ensures e.Sub? ==> AllAround(c, s, e.list, bare)
    ensures e.Name? && FindAcl(c.acls, e.name).Some? ==> AllAround(c, s, c.acls[FindAcl(c.acls, e.name).value].list, true)
  {
    forall j | 0 <= j < |s| && s[j].InProgress?
      ensures e.Sub? ==> Around(c, j, e.list, bare)
      ensures e.Name? && FindAcl(c.acls, e.name).Some? ==> Around(c, j, c.acls[FindAcl(c.acls, e.name).value].list, true)
    {
      AroundItsList(c, j, e, bare);
    }
  }

  /** An element that stands for a list is resolved, or too deep, as that list is. */
  lemma {:induction false} SubResolved(c: Config, e: Elem, bare: bool, l: List, lbare: bool, s: Option<Resolved>, depth: int)
    requires (e.Sub? && e.list == l && lbare == bare)
          || (e.Name? && lbare && FindAcl(c.acls, e.name).Some? && c.acls[FindAcl(c.acls, e.name).value].list == l)
    requires if s.Some? then IsResolved(c, l, lbare, s.value) else TooDeep(c, l, lbare, depth)
    ensures if s.Some? then IsResolvedElem(c, e, bare, RList(e.neg, s.value)) else TooDeepElem(c, e, bare, depth)
  {
    if s.Some? {
      var t :| Expands(c, l, lbare, t) && Depth(t) <= MAX_DEPTH && Annotated(s.value, t);
      assert ExpandsElem(c, e, bare, XSub(e.neg, t)) && AnnotatedElem(RList(e.neg, s.value), XSub(e.neg, t));
    }
  }

  lemma {:induction false} NamesItself(c: Config, s: seq<AclState>, i: nat, e: Elem, bare: bool)
    requires AllAroundElem(c, s, e, bare) && i < |s| && s[i].InProgress? && e.Name? && FindAcl(c.acls, e.name) == Some(i)
    ensures TooDeep(c, c.acls[i].list, true, MAX_DEPTH)
  {
    NoneInsideItself(c, i, e, bare);
    forall t ensures !Expands(c, c.acls[i].list, true, t) {
      assert Expands(c, c.acls[i].list, true, t) ==> ExpandsElem(c, e, bare, XSub(e.neg, t));
    }
  }

  lemma {:induction false} OpenLess(s: seq<AclState>, i: nat, x: AclState)
    requires i < |s| && s[i].Unresolved? && !x.Unresolved?
    ensures Open(s[i := x]) == Open(s) - 1
    decreases |s|
  {
    var n := |s| - 1;
    if i < n {
      OpenLess(s[..n], i, x);
      assert s[i := x][..n] == s[..n][i := x];
    } else {
      assert s[i := x][..n] == s[..n];
    }
  }

  lemma {:induction false} Started(c: Config, s: seq<AclState>, i: nat)
    requires ValidStates(c, s) && i < |s| && s[i].Unresolved? && AllAround(c, s, c.acls[i].list, true)
    ensures var t := s[i := InProgress];
      ValidStates(c, t) && AllAround(c, t, c.acls[i].list, true) && Open(t) == Open(s) - 1
  {
    OpenLess(s, i, InProgress);
    assert Around(c, i, c.acls[i].list, true);
  }

  lemma {:induction false} Finished(c: Config, s: seq<AclState>, begun: seq<AclState>, t: seq<AclState>, i: nat, r: Resolved)
    requires i < |s| && s[i].Unresolved? && begun == s[i := InProgress] && Later(begun, t) && ValidStates(c, t)
    requires |s| == |c.acls| && IsResolved(c, c.acls[i].list, true, r)
    ensures ValidStates(c, t[i := Done(r)]) && Later(s, t[i := Done(r)])
  {
  }

  lemma {:induction false} DoneAreNotTooDeep(c: Config, s: seq<AclState>)
    requires ValidStates(c, s) && forall i :: 0 <= i < |s| ==> s[i].Done?
    ensures forall i :: 0 <= i < |s| ==> !TooDeep(c, c.acls[i].list, true, MAX_DEPTH)
  {
    forall i | 0 <= i < |s| ensures !TooDeep(c, c.acls[i].list, true, MAX_DEPTH) {
      assert IsResolved(c, c.acls[i].list, true, s[i].list);
      var t :| Expands(c, c.acls[i].list, true, t) && Depth(t) <= MAX_DEPTH && Annotated(s[i].list, t);
    }
  }
}
