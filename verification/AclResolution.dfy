/**
 * The resolution of the acl blocks and address match lists of a configuration: names become lists, and every list gets
 * its flags and its depth. It succeeds exactly when the list has a full expansion that is not too deep, and then gives
 * every list in it the flags of its expansion.
 */
module AclResolution {
  import opened Records
  import opened NameDecoding
  import opened AclExpansion
  import opened AclStates

  class Resolver {
    const c: Config
    var state: seq<AclState>

    ghost predicate Valid()
      reads `state
    {
      ValidStates(c, state)
    }

    constructor (c: Config)
      ensures this.c == c && Valid() && forall i :: 0 <= i < |c.acls| ==> state[i] == Unresolved
    {
      this.c := c;
      state := seq(|c.acls|, _ => Unresolved);
    }

    /** aml_resolve(). depth: how many lists it is written inside. */
    method ResolveList(l: List, bare: bool, depth: nat) returns (r: Option<Resolved>)
      requires Valid() && AllAround(c, state, l, bare)
      modifies `state
      ensures r.Some? ==> Valid() && Later(old(state), state) && IsResolved(c, l, bare, r.value)
      ensures r.None? ==> TooDeep(c, l, bare, MAX_DEPTH - depth)
      decreases Open(state), 1, l
    {
      if depth > MAX_DEPTH { return None; }
      var rs, f := [], Flags(false, false, false, 1);
      ghost var xs: seq<XElem> := [];
      EmptyFlags();
      var i := 0;
      while i < |l.elems|
        invariant 0 <= i <= |l.elems| && |xs| == i
        invariant Partly(c, l, bare, xs, rs, f)
        invariant Valid() && Later(old(state), state)
      {
        ElemAround(c, old(state), state, l, bare, i);
        LaterOpen(old(state), state);
        var e := ResolveElem(l.elems[i], bare, depth);
        if e.None? {
          ElemTooDeep(c, l, bare, i, MAX_DEPTH - depth - 1);
          return None;
        }
        ghost var x := PartlyMore(c, l, bare, xs, rs, f, e.value);
        xs, rs, f := xs + [x], rs + [e.value], AddFlags(f, e.value);
        i := i + 1;
      }
      PartlyAll(c, l, bare, xs, rs, f);
      if f.depth > MAX_DEPTH { return None; }
      return Some(Resolved(rs, f));
    }

    /** One element of a list. */
    method ResolveElem(e: Elem, bare: bool, depth: nat) returns (r: Option<RElem>)
      requires Valid() && AllAroundElem(c, state, e, bare) && depth <= MAX_DEPTH
      modifies `state
      ensures r.Some? ==> Valid() && Later(old(state), state) && IsResolvedElem(c, e, bare, r.value)
      ensures r.None? ==> TooDeepElem(c, e, bare, MAX_DEPTH - depth - 1)
      decreases Open(state), 1, e
    {
      LaterSame(state);
      match e
      case Addr(neg, addr) =>
        assert ExpandsElem(c, e, bare, XAddr(neg, addr)) && AnnotatedElem(RAddr(neg, addr), XAddr(neg, addr));
        return Some(RAddr(neg, addr));
      case Key(neg, key) =>
        if key !in c.keys { return None; }
        assert ExpandsElem(c, e, bare, XKey(neg, key)) && AnnotatedElem(RKey(neg, key), XKey(neg, key));
        return Some(RKey(neg, key));
      case Sub(neg, l) =>
        ListAround(c, state, e, bare);
        var s := ResolveList(l, bare, depth + 1);
        SubResolved(c, e, bare, l, bare, s, MAX_DEPTH - depth - 1);
        return if s.None? then None else Some(RList(neg, s.value));
      case Name(neg, name) =>
        var i := FindAcl(c.acls, name);
        if i.Some? {
          var s := ResolveAcl(i.value, e, bare);
          SubResolved(c, e, bare, c.acls[i.value].list, true, s, MAX_DEPTH - depth - 1);
          return if s.None? then None else Some(RList(neg, s.value));
        }
        if !bare || neg || name !in c.keys { return None; }
        assert ExpandsElem(c, e, bare, XKey(neg, name)) && AnnotatedElem(RKey(neg, name), XKey(neg, name));
        return Some(RKey(neg, name));
    }

    /** acl_def_resolve(), for the element that names the acl. */
    method ResolveAcl(i: nat, ghost e: Elem, ghost bare: bool) returns (r: Option<Resolved>)
      requires Valid() && AllAroundElem(c, state, e, bare) && e.Name? && FindAcl(c.acls, e.name) == Some(i)
      modifies `state
      ensures r.Some? ==> Valid() && Later(old(state), state) && IsResolved(c, c.acls[i].list, true, r.value)
      ensures r.None? ==> TooDeep(c, c.acls[i].list, true, MAX_DEPTH)
      decreases Open(state), 0
    {
      LaterSame(state);
      if state[i].Done? { return Some(state[i].list); }
      if state[i].InProgress? {
        NamesItself(c, state, i, e, bare);
        return None;
      }
      ListAround(c, state, e, bare);
      r := ResolveOpenAcl(i);
    }

    /** An acl that was not looked at before. */
    method ResolveOpenAcl(i: nat) returns (r: Option<Resolved>)
      requires Valid() && i < |c.acls| && state[i].Unresolved? && AllAround(c, state, c.acls[i].list, true)
      modifies `state
      ensures r.Some? ==>
        && Valid() && Later(old(state), state) && state[i] == Done(r.value) && IsResolved(c, c.acls[i].list, true, r.value)
      ensures r.None? ==> TooDeep(c, c.acls[i].list, true, MAX_DEPTH)
      decreases Open(state) - 1, 2
    {
      Started(c, state, i);
      state := state[i := InProgress];
      ghost var begun := state;
      r := ResolveList(c.acls[i].list, true, 0);
      if r.Some? {
        Finished(c, old(state), begun, state, i, r.value);
        state := state[i := Done(r.value)];
      }
    }

    /** The acl blocks of the configuration, one after the other. */
    method ResolveAcls() returns (ok: bool)
      requires Valid() && NoneInProgress(state)
      modifies `state
      ensures ok <==> forall i :: 0 <= i < |c.acls| ==> !TooDeep(c, c.acls[i].list, true, 32)
      ensures ok ==> Valid() && NoneInProgress(state) && forall i :: 0 <= i < |c.acls| ==> state[i].Done?
    {
      var i := 0;
      while i < |c.acls|
        invariant 0 <= i <= |c.acls| && Valid() && NoneInProgress(state)
        invariant forall k :: 0 <= k < i ==> state[k].Done?
      {
        if state[i].Unresolved? {
          var r := ResolveOpenAcl(i);
          if r.None? { return false; }
        }
        i := i + 1;
      }
      DoneAreNotTooDeep(c, state);
      return true;
    }

    /** A list of the options, a view or a zone. bare: it is an allow-update list. */
    method ResolveTop(l: List, bare: bool) returns (r: Option<Resolved>)
      requires Valid() && NoneInProgress(state)
      modifies `state
      ensures r.None? <==> TooDeep(c, l, bare, 32)
      ensures r.Some? ==> Valid() && NoneInProgress(state) && IsResolved(c, l, bare, r.value)
    {
      r := ResolveList(l, bare, 0);
    }
  }
}
