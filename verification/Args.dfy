/** A kit's arguments: what a declaration accepts, and when a set's may stand in for a kit's. */
module Args {
  import opened Trees

  datatype Arg = Arg(required: bool, default: Option<string>, enum: seq<string>, pattern: string)

  /** Which values each pattern matches whole; a pattern that does not compile matches none. */
  type Matcher = (string, string) -> bool

  predicate CheckArgValue(matches: Matcher, decl: Arg, v: string) {
    if decl.enum != [] then v in decl.enum
    else if decl.pattern != "" then matches(decl.pattern, v)
    else true
  }

  /** The value an argument takes, if it takes one: what was supplied, or else its default. */
  function Effective(decl: Arg, supplied: map<string, string>, name: string): Option<string> {
    if name in supplied then Some(supplied[name]) else decl.default
  }

  /** The input an argument's declaration refuses: a supplied value it does not accept, or none where it needs one or its default fails it. */
  predicate Refuses(matches: Matcher, decl: Arg, supplied: map<string, string>, name: string) {
    if name in supplied then !CheckArgValue(matches, decl, supplied[name])
    else decl.required || (decl.default.Some? && !CheckArgValue(matches, decl, decl.default.value))
  }

  /** Every supplied value is declared and accepted, and stands; an argument left out takes its default if it has one. */
  method ResolveArgs(matches: Matcher, decls: map<string, Arg>, supplied: map<string, string>) returns (values: Option<map<string, string>>)
    ensures values.None? <==>
      || (exists name :: name in supplied && name !in decls)
      || exists name :: name in decls && Refuses(matches, decls[name], supplied, name)
    ensures values.Some? ==> forall name :: name in supplied ==> name in values.value && values.value[name] == supplied[name]
    ensures values.Some? ==> forall name :: name in decls && name !in supplied ==>
      (if name in values.value then Some(values.value[name]) else None) == decls[name].default
    ensures values.Some? ==> forall name :: name in values.value ==> name in decls
  {
    if !(supplied.Keys <= decls.Keys) {
      assert exists name :: name in supplied.Keys && name !in decls.Keys;
      return None;
    }
    var resolved: map<string, string> := map[];
    var names := decls.Keys;
    while names != {}
      invariant names <= decls.Keys
      invariant forall name :: name in decls && name !in names ==> !Refuses(matches, decls[name], supplied, name)
      invariant forall name :: name in supplied && name !in names ==> name in resolved && resolved[name] == supplied[name]
      invariant forall name :: name in decls && name !in supplied && name !in names ==>
        (if name in resolved then Some(resolved[name]) else None) == decls[name].default
      invariant forall name :: name in resolved ==> name in decls && name !in names
      decreases names
    {
      var name :| name in names;
      var decl := decls[name];
      names := names - {name};
      if name !in supplied && decl.required {
        return None;
      }
      if name in supplied || decl.default.Some? {
        var v := if name in supplied then supplied[name] else decl.default.value;
        if !CheckArgValue(matches, decl, v) {
          return None;
        }
        resolved := resolved[name := v];
      }
    }
    values := Some(resolved);
  }

  /** Holds a set's declaration to the contract of the kit's argument it stands in for. */
  method CheckReExport(kit: Arg, own: Option<Arg>) returns (ok: bool)
    ensures ok == StandsIn(kit, own)
  {
    if own.None? {
      return false;
    }
    var stated := own.value;
    if kit.required && !stated.required && stated.default.None? {
      return false;
    }
    if kit.enum != [] {
      var allowed := set v | v in kit.enum;
      if stated.enum == [] {
        return false;
      }
      for i := 0 to |stated.enum|
        invariant forall j :: 0 <= j < i ==> stated.enum[j] in kit.enum
      {
        if stated.enum[i] !in allowed {
          return false;
        }
      }
    }
    if kit.pattern != "" && stated.pattern != kit.pattern {
      return false;
    }
    ok := !(kit.default.Some? && stated.default.None? && !stated.required);
  }

  /** The set declares the argument, restates what the kit's bounds, and leaves no value out that the kit needs or fills in. */
  predicate StandsIn(kit: Arg, own: Option<Arg>) {
    && own.Some?
    && (kit.required || kit.default.Some? ==> own.value.required || own.value.default.Some?)
    && (kit.enum != [] ==> own.value.enum != [] && forall v :: v in own.value.enum ==> v in kit.enum)
    && (kit.pattern != "" ==> own.value.pattern == kit.pattern)
  }

  /** Validation admits an enum or a pattern, not both. */
  predicate Validated(a: Arg) {
    !(a.enum != [] && a.pattern != "")
  }

  /** Every value the set's declaration accepts, the kit's accepts. */
  ghost predicate NoLooser(matches: Matcher, kit: Arg, own: Arg) {
    forall v :: CheckArgValue(matches, own, v) ==> CheckArgValue(matches, kit, v)
  }

  /** What reaches the kit: each of its arguments takes the value of the set's that stands in for it, if that has one. */
  function Passed(own: map<string, Arg>, exports: map<string, string>, supplied: map<string, string>): map<string, string> {
    map k | k in exports && exports[k] in own && Effective(own[exports[k]], supplied, exports[k]).Some? ::
      Effective(own[exports[k]], supplied, exports[k]).value
  }

  /** Every argument of the kit is answered by one of the set's that the check let stand in for it. */
  predicate ReExported(kit: map<string, Arg>, own: map<string, Arg>, exports: map<string, string>) {
    && exports.Keys == kit.Keys
    && forall k :: k in kit ==> exports[k] in own && Validated(own[exports[k]]) && StandsIn(kit[k], Some(own[exports[k]]))
  }

  /** What the set's declarations accept, the kit's accept, and what the kit needs or would fill in is there. */
  lemma ReExportsResolve(matches: Matcher, kit: map<string, Arg>, own: map<string, Arg>, exports: map<string, string>, supplied: map<string, string>)
    requires ReExported(kit, own, exports)
    requires forall name :: name in own ==> !Refuses(matches, own[name], supplied, name)
    ensures forall k :: k in kit ==> !Refuses(matches, kit[k], Passed(own, exports, supplied), k)
    ensures forall k :: k in kit && (kit[k].required || kit[k].default.Some?) ==> k in Passed(own, exports, supplied)
    ensures forall k :: k in kit ==> NoLooser(matches, kit[k], own[exports[k]])
  {
    forall k | k in kit
      ensures !Refuses(matches, kit[k], Passed(own, exports, supplied), k)
      ensures kit[k].required || kit[k].default.Some? ==> k in Passed(own, exports, supplied)
      ensures NoLooser(matches, kit[k], own[exports[k]])
    {
      var name := exports[k];
      assert name in own && !Refuses(matches, own[name], supplied, name);
    }
  }

  /** What the check lets stand in is no looser than the kit's, unless it lists values under a pattern that refuses one of them. */
  lemma StandsInExactly(matches: Matcher, kit: Arg, own: Arg)
    requires StandsIn(kit, Some(own))
    ensures NoLooser(matches, kit, own) <==> kit.enum != [] || kit.pattern == "" || forall v :: v in own.enum ==> matches(kit.pattern, v)
    ensures Validated(own) ==> NoLooser(matches, kit, own)
  {
    if kit.enum == [] && kit.pattern != "" {
      forall v ensures CheckArgValue(matches, kit, v) <==> matches(kit.pattern, v) {}
      if NoLooser(matches, kit, own) {
        forall v | v in own.enum ensures matches(kit.pattern, v) {
          assert CheckArgValue(matches, own, v);
        }
      }
    }
  }

  /** A declaration that validation would refuse, stating both, passes the check and lets through what the kit refuses. */
  lemma BothStatedIsLooser(matches: Matcher, pattern: string, v: string)
    requires pattern != "" && !matches(pattern, v)
    ensures var kit, own := Arg(false, None, [], pattern), Arg(false, None, [v], pattern);
      StandsIn(kit, Some(own)) && !Validated(own) && !NoLooser(matches, kit, own)
  {
    var kit, own := Arg(false, None, [], pattern), Arg(false, None, [v], pattern);
    assert CheckArgValue(matches, own, v) && !CheckArgValue(matches, kit, v);
  }
}
