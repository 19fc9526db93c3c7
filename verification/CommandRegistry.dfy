/** The command registry: names, aliases and groups, and what a chat message resolves to. */
module CommandRegistry {
  import opened Wrappers
  import opened GoStrings

  const ARG_STRING: int := 0
  const ARG_BOOL: int := 2

  datatype Arg = Arg(name: string, kind: int, required: bool)

  datatype Command = Command(name: string, aliases: seq<string>, group: string, sub: string, args: seq<Arg>,
                             hasHandler: bool)

  /** strings.ToLower, of which only this is used: nothing stays nothing. */
  type Lower = lower: string -> string | lower("") == "" witness s => s

  function TrimLeft(s: string): string {
    if s != "" && IsSpace(s[0]) then TrimLeft(s[1..]) else s
  }

  function TrimRight(s: string): string {
    if s != "" && IsSpace(s[|s| - 1]) then TrimRight(s[..|s| - 1]) else s
  }

  function TrimSpace(s: string): string {
    TrimRight(TrimLeft(s))
  }

  function Fold(lower: Lower, name: string): string {
    lower(TrimSpace(name))
  }

  // ------------------------------------------------------------------ declarations

  predicate ArgsOk(lower: Lower, args: seq<Arg>) {
    && (forall a | a in args :: Fold(lower, a.name) != "" && ARG_STRING <= a.kind <= ARG_BOOL)
    && (forall i, j | 0 <= i < j < |args| ::
          Fold(lower, args[i].name) != Fold(lower, args[j].name) && (args[j].required ==> args[i].required))
  }

  predicate FitsAfter(lower: Lower, args: seq<Arg>, a: Arg) {
    && Fold(lower, a.name) != "" && ARG_STRING <= a.kind <= ARG_BOOL
    && forall i | 0 <= i < |args| ::
         Fold(lower, args[i].name) != Fold(lower, a.name) && (a.required ==> args[i].required)
  }

  lemma ArgsOkMore(lower: Lower, args: seq<Arg>, k: nat)
    requires k < |args| && ArgsOk(lower, args[..k])
    ensures if FitsAfter(lower, args[..k], args[k]) then ArgsOk(lower, args[..k + 1]) else !ArgsOk(lower, args)
  {
    hide Fold;
    assert args[k] in args;
    assert args[..k + 1] == args[..k] + [args[k]];
    assert forall i | 0 <= i < k :: args[..k][i] == args[i];
  }

  /** Every argument is named and of a known type; no two have the same name, and none is required after an optional
      one. */
  method ValidateArgs(lower: Lower, args: seq<Arg>) returns (ok: bool)
    ensures ok <==> ArgsOk(lower, args)
    ensures ok <==>
      && (forall k | 0 <= k < |args| :: lower(TrimSpace(args[k].name)) != "" && 0 <= args[k].kind <= 2)
      && (forall j, k | 0 <= j < k < |args| ::
            lower(TrimSpace(args[j].name)) != lower(TrimSpace(args[k].name)) && (args[k].required ==> args[j].required))
  {
    ArgsMean(lower, args);
    hide ArgsOk, Fold;
    var seen: set<string>, optionalSeen := {}, false;
    NoArgs(lower);
    for k := 0 to |args|
      invariant ArgsOk(lower, args[..k])
      invariant forall n :: n in seen <==> exists i :: 0 <= i < k && Fold(lower, args[i].name) == n
      invariant optionalSeen <==> exists i :: 0 <= i < k && !args[i].required
    {
      var name := Fold(lower, args[k].name);
      ArgsOkMore(lower, args, k);
      if name == "" || name in seen {
        return false;
      }
      if args[k].kind < ARG_STRING || args[k].kind > ARG_BOOL {
        return false;
      }
      if args[k].required && optionalSeen {
        return false;
      }
      seen := seen + {name};
      if !args[k].required {
        optionalSeen := true;
      }
    }
    assert args[..|args|] == args;
    return true;
  }

  lemma ArgsMean(lower: Lower, args: seq<Arg>)
    ensures ArgsOk(lower, args) <==>
      && (forall k | 0 <= k < |args| :: lower(TrimSpace(args[k].name)) != "" && 0 <= args[k].kind <= 2)
      && (forall j, k | 0 <= j < k < |args| ::
            lower(TrimSpace(args[j].name)) != lower(TrimSpace(args[k].name)) && (args[k].required ==> args[j].required))
  {
    hide TrimSpace;
    assert forall a | a in args :: exists k :: 0 <= k < |args| && args[k] == a;
    assert forall k | 0 <= k < |args| :: args[k] in args;
  }

  lemma NoArgs(lower: Lower)
    ensures ArgsOk(lower, [])
  {
  }

  /** A group and a sub go together, and neither is blank. */
  predicate GroupingOk(lower: Lower, cmd: Command) {
    || (cmd.group == "" && cmd.sub == "")
    || (Fold(lower, cmd.group) != "" && Fold(lower, cmd.sub) != "")
  }

  method ValidateGrouping(lower: Lower, cmd: Command) returns (ok: bool)
    ensures ok <==> GroupingOk(lower, cmd)
    ensures ok <==>
      (cmd.group == "" && cmd.sub == "") || (lower(TrimSpace(cmd.group)) != "" && lower(TrimSpace(cmd.sub)) != "")
  {
    if cmd.group == "" && cmd.sub == "" {
      return true;
    }
    if cmd.group == "" || cmd.sub == "" {
      return false;
    }
    return Fold(lower, cmd.group) != "" && Fold(lower, cmd.sub) != "";
  }

  /** What a command answers to on its own: its name, then its aliases. */
  function Keys(lower: Lower, cmd: Command): seq<string> {
    [Fold(lower, cmd.name)] + seq(|cmd.aliases|, i requires 0 <= i < |cmd.aliases| => Fold(lower, cmd.aliases[i]))
  }

  // ------------------------------------------------------------------ the registry as a value

  datatype Group = Group(name: string, members: map<string, string>)

  datatype Registry = Registry(commands: map<string, Command>, canonical: map<string, string>, groups: map<string, Group>)

  const EMPTY: Registry := Registry(map[], map[], map[])

  predicate KeysFree(r: Registry, keys: seq<string>, group: string) {
    && (forall k | k in keys :: k != "" && k !in r.canonical && k !in r.groups && k != group)
    && (forall i, j | 0 <= i < j < |keys| :: keys[i] != keys[j])
  }

  predicate SubFree(r: Registry, group: string, sub: string) {
    group !in r.canonical && (group in r.groups ==> sub !in r.groups[group].members)
  }

  /** No collision with a name, an alias or a group, and a declaration that dispatch can satisfy. */
  predicate Acceptable(r: Registry, cmd: Command, lower: Lower) {
    && cmd.hasHandler && ArgsOk(lower, cmd.args) && GroupingOk(lower, cmd)
    && KeysFree(r, Keys(lower, cmd), Fold(lower, cmd.group))
    && (Fold(lower, cmd.group) != "" ==> SubFree(r, Fold(lower, cmd.group), Fold(lower, cmd.sub)))
  }

  /** Acceptable in full: none of its names is blank, taken by a name, an alias or a group, its own group, or declared
      twice, and its group is no name and has no such sub yet. */
  lemma AcceptableMeans(r: Registry, cmd: Command, lower: Lower)
    ensures
      var names := [cmd.name] + cmd.aliases;
      var group, sub := lower(TrimSpace(cmd.group)), lower(TrimSpace(cmd.sub));
      Acceptable(r, cmd, lower) <==>
        && cmd.hasHandler && ArgsOk(lower, cmd.args) && GroupingOk(lower, cmd)
        && (forall k | 0 <= k < |names| ::
              var key := lower(TrimSpace(names[k]));
              key != "" && key !in r.canonical && key !in r.groups && key != group)
        && (forall j, k | 0 <= j < k < |names| :: lower(TrimSpace(names[j])) != lower(TrimSpace(names[k])))
        && (group != "" ==> group !in r.canonical && (group in r.groups ==> sub !in r.groups[group].members))
  {
    hide TrimSpace, ArgsOk, GroupingOk;
    var names, keys := [cmd.name] + cmd.aliases, Keys(lower, cmd);
    assert |keys| == |names| && forall k | 0 <= k < |names| :: keys[k] == lower(TrimSpace(names[k]));
    assert forall k | 0 <= k < |keys| :: keys[k] in keys;
  }

  function WithKeys(canonical: map<string, string>, keys: seq<string>, name: string): map<string, string> {
    map k | k in canonical.Keys + (set key | key in keys) :: if k in keys then name else canonical[k]
  }

  function WithSub(groups: map<string, Group>, group: string, sub: string, shown: string, name: string): map<string, Group> {
    var before := if group in groups then groups[group] else Group(shown, map[]);
    groups[group := before.(members := before.members[sub := name])]
  }

  function Registered(r: Registry, cmd: Command, lower: Lower): Registry {
    if !Acceptable(r, cmd, lower) then r
    else
      var name, group := Fold(lower, cmd.name), Fold(lower, cmd.group);
      Registry(r.commands[name := cmd],
               WithKeys(r.canonical, Keys(lower, cmd), name),
               if group == "" then r.groups else WithSub(r.groups, group, Fold(lower, cmd.sub), TrimSpace(cmd.group), name))
  }

  function CommandAt(r: Registry, key: string): Option<Command> {
    if key !in r.canonical || r.canonical[key] !in r.commands then None else Some(r.commands[r.canonical[key]])
  }

  function MemberAt(r: Registry, group: string, sub: string): Option<Command> {
    if group !in r.groups || sub !in r.groups[group].members || r.groups[group].members[sub] !in r.commands then None
    else Some(r.commands[r.groups[group].members[sub]])
  }

  function Lookup(r: Registry, name: string, lower: Lower): Option<Command> {
    CommandAt(r, Fold(lower, name))
  }

  datatype Resolved = Resolved(cmd: Command, rest: seq<string>)

  /** A flat name wins; failing that, a group and its next word. */
  function ResolveChat(r: Registry, name: string, args: seq<string>, lower: Lower): Option<Resolved> {
    var flat := Lookup(r, name, lower);
    if flat.Some? then Some(Resolved(flat.value, args))
    else if args == [] then None
    else
      var member := MemberAt(r, Fold(lower, name), Fold(lower, args[0]));
      if member.None? then None else Some(Resolved(member.value, args[1..]))
  }

  // ------------------------------------------------------------------ every sequence of registrations

  /** Every key leads to a command, and a key is a flat one or a group, never both. */
  ghost predicate Consistent(r: Registry) {
    && (forall k | k in r.canonical :: r.canonical[k] in r.commands)
    && r.commands.Keys <= r.canonical.Keys
    && r.canonical.Keys !! r.groups.Keys
    && "" !in r.canonical && "" !in r.groups
    && forall g, s | g in r.groups && s in r.groups[g].members :: r.groups[g].members[s] in r.commands
  }

  /** The registry with a command's keys and its group added. */
  function Added(r: Registry, cmd: Command, keys: seq<string>, group: string, sub: string): Registry
    requires keys != []
  {
    Registry(r.commands[keys[0] := cmd], WithKeys(r.canonical, keys, keys[0]),
             if group == "" then r.groups else WithSub(r.groups, group, sub, TrimSpace(cmd.group), keys[0]))
  }

  lemma AddedKeepsConsistent(r: Registry, cmd: Command, keys: seq<string>, group: string, sub: string)
    requires Consistent(r) && keys != [] && KeysFree(r, keys, group) && (group != "" ==> SubFree(r, group, sub))
    ensures Consistent(Added(r, cmd, keys, group, sub))
  {
    hide TrimSpace;
    assert keys[0] in keys;
  }

  lemma AddedExtends(r: Registry, cmd: Command, keys: seq<string>, group: string, sub: string)
    requires Consistent(r) && keys != [] && KeysFree(r, keys, group) && (group != "" ==> SubFree(r, group, sub))
    ensures Extends(r, Added(r, cmd, keys, group, sub))
  {
    KeysAreNew(r, keys, group);
    hide WithKeys, WithSub, TrimSpace, Consistent, KeysFree, Keeps;
    KeysExtend(r.canonical, keys, keys[0]);
    OneMore(r.commands, keys[0], cmd);
    SameGroups(r.groups);
    if group != "" {
      SubExtends(r.groups, group, sub, TrimSpace(cmd.group), keys[0]);
    }
  }

  lemma KeysAreNew(r: Registry, keys: seq<string>, group: string)
    requires Consistent(r) && keys != [] && KeysFree(r, keys, group)
    ensures keys[0] !in r.commands && forall k | k in keys :: k !in r.canonical
  {
    assert keys[0] in keys;
  }

  lemma OneMore<V>(m: map<string, V>, k: string, v: V)
    requires k !in m
    ensures Keeps(m, m[k := v])
  {
  }

  lemma SameGroups(groups: map<string, Group>)
    ensures forall g | g in groups :: Keeps(groups[g].members, groups[g].members)
  {
  }

  lemma KeysExtend(canonical: map<string, string>, keys: seq<string>, name: string)
    requires forall k | k in keys :: k !in canonical
    ensures Keeps(canonical, WithKeys(canonical, keys, name))
  {
  }

  lemma SubExtends(groups: map<string, Group>, group: string, sub: string, shown: string, name: string)
    requires group in groups ==> sub !in groups[group].members
    ensures var groups' := WithSub(groups, group, sub, shown, name);
      forall g | g in groups :: g in groups' && Keeps(groups[g].members, groups'[g].members)
  {
  }

  lemma RegisteredIsAdded(r: Registry, cmd: Command, lower: Lower)
    requires Acceptable(r, cmd, lower)
    ensures var group, sub := Fold(lower, cmd.group), Fold(lower, cmd.sub);
      && KeysFree(r, Keys(lower, cmd), group) && (group != "" ==> SubFree(r, group, sub))
      && Registered(r, cmd, lower) == Added(r, cmd, Keys(lower, cmd), group, sub)
  {
    hide Fold, ArgsOk, GroupingOk, KeysFree, SubFree, WithKeys, WithSub;
  }

  lemma RegisterKeepsConsistent(r: Registry, cmd: Command, lower: Lower)
    requires Consistent(r)
    ensures Consistent(Registered(r, cmd, lower))
  {
    hide Consistent, Acceptable, KeysFree, SubFree, Fold, Added;
    if Acceptable(r, cmd, lower) {
      RegisteredIsAdded(r, cmd, lower);
      AddedKeepsConsistent(r, cmd, Keys(lower, cmd), Fold(lower, cmd.group), Fold(lower, cmd.sub));
    }
  }

  function After(cmds: seq<Command>, lower: Lower): Registry {
    if cmds == [] then EMPTY else Registered(After(cmds[..|cmds| - 1], lower), cmds[|cmds| - 1], lower)
  }

  lemma {:induction false} ConsistentInEveryRun(cmds: seq<Command>, lower: Lower)
    ensures Consistent(After(cmds, lower))
  {
    if cmds != [] {
      ConsistentInEveryRun(cmds[..|cmds| - 1], lower);
      RegisterKeepsConsistent(After(cmds[..|cmds| - 1], lower), cmds[|cmds| - 1], lower);
    }
  }

  /** A command that was accepted answers to its name, to every alias, and to its group and sub; and whatever is
      called by anything else resolves as it did. */
  lemma AcceptedResolves(r: Registry, cmd: Command, lower: Lower, name: string, args: seq<string>)
    requires Consistent(r) && Acceptable(r, cmd, lower)
    ensures Lookup(Registered(r, cmd, lower), name, lower) ==
      if Fold(lower, name) in Keys(lower, cmd) then Some(cmd) else Lookup(r, name, lower)
    ensures ResolveChat(Registered(r, cmd, lower), name, args, lower) ==
      if Fold(lower, name) in Keys(lower, cmd) then Some(Resolved(cmd, args))
      else if Called(cmd, name, args, lower) then Some(Resolved(cmd, args[1..]))
      else ResolveChat(r, name, args, lower)
  {
    hide Consistent, Acceptable, KeysFree, SubFree, Added, Registered, CommandAt, MemberAt, Keys;
    var keys, group, sub := Keys(lower, cmd), Fold(lower, cmd.group), Fold(lower, cmd.sub);
    RegisteredIsAdded(r, cmd, lower);
    GroupIsNamed(r, cmd, lower);
    AddedFlat(r, cmd, keys, group, sub, Fold(lower, name));
    if args != [] {
      AddedMember(r, cmd, keys, group, sub, Fold(lower, name), Fold(lower, args[0]));
    }
  }

  lemma AddedFlat(r: Registry, cmd: Command, keys: seq<string>, group: string, sub: string, key: string)
    requires Consistent(r) && keys != [] && KeysFree(r, keys, group) && (group != "" ==> SubFree(r, group, sub))
    ensures CommandAt(Added(r, cmd, keys, group, sub), key) == if key in keys then Some(cmd) else CommandAt(r, key)
    ensures group != "" && key == group ==> key !in keys && CommandAt(r, key) == None
  {
    KeysAreNew(r, keys, group);
    hide WithSub, TrimSpace;
  }

  lemma AddedMember(r: Registry, cmd: Command, keys: seq<string>, group: string, sub: string, g: string, s: string)
    requires Consistent(r) && keys != [] && KeysFree(r, keys, group) && (group != "" ==> SubFree(r, group, sub))
    ensures MemberAt(Added(r, cmd, keys, group, sub), g, s) ==
      if group != "" && g == group && s == sub then Some(cmd) else MemberAt(r, g, s)
  {
    KeysAreNew(r, keys, group);
    hide WithKeys, TrimSpace;
  }

  lemma GroupIsNamed(r: Registry, cmd: Command, lower: Lower)
    requires Acceptable(r, cmd, lower)
    ensures Keys(lower, cmd) != [] && (Fold(lower, cmd.group) != "" <==> cmd.group != "")
  {
    FoldNothing(lower);
    hide ArgsOk, Fold;
  }

  /** By its group, and then its sub. */
  predicate Called(cmd: Command, name: string, args: seq<string>, lower: Lower) {
    && cmd.group != "" && args != []
    && Fold(lower, name) == Fold(lower, cmd.group) && Fold(lower, args[0]) == Fold(lower, cmd.sub)
  }

  lemma FoldNothing(lower: Lower)
    ensures Fold(lower, "") == ""
  {
  }

  predicate AllSpace(s: string) {
    forall k | 0 <= k < |s| :: IsSpace(s[k])
  }

  predicate Bare(s: string) {
    s != "" ==> !IsSpace(s[0]) && !IsSpace(s[|s| - 1])
  }

  lemma {:induction false} TrimmedRight(core: string, post: string)
    requires Bare(core) && AllSpace(post)
    ensures TrimRight(core + post) == core
  {
    if post == "" {
      assert core + post == core;
    } else {
      var n := |post| - 1;
      assert (core + post)[..|core| + n] == core + post[..n] && (core + post)[|core| + n] == post[n];
      TrimmedRight(core, post[..n]);
    }
  }

  lemma {:induction false} TrimmedLeft(pre: string, rest: string)
    requires AllSpace(pre)
    ensures TrimLeft(pre + rest) == TrimLeft(rest)
  {
    if pre == "" {
      assert pre + rest == rest;
    } else {
      assert (pre + rest)[1..] == pre[1..] + rest;
      TrimmedLeft(pre[1..], rest);
    }
  }

  lemma {:induction false} NothingLeft(s: string)
    requires AllSpace(s)
    ensures TrimLeft(s) == ""
  {
    if s != "" {
      NothingLeft(s[1..]);
    }
  }

  /** White space around a name is not part of it. */
  lemma TrimmedIs(pre: string, core: string, post: string)
    requires AllSpace(pre) && Bare(core) && AllSpace(post)
    ensures TrimSpace(pre + core + post) == core
  {
    assert pre + core + post == pre + (core + post);
    TrimmedLeft(pre, core + post);
    if core == "" {
      assert core + post == post;
      NothingLeft(post);
    } else {
      assert (core + post)[0] == core[0];
      TrimmedRight(core, post);
    }
  }

  /** Names that differ in case and in the white space around them resolve alike, first words of groups and subs
      included. */
  lemma NamesResolveAlike(r: Registry, lower: Lower, pre: string, core: string, post: string,
                          pre': string, core': string, post': string, args: seq<string>)
    requires AllSpace(pre) && Bare(core) && AllSpace(post) && AllSpace(pre') && Bare(core') && AllSpace(post')
    requires lower(core) == lower(core')
    ensures Lookup(r, pre + core + post, lower) == Lookup(r, pre' + core' + post', lower)
    ensures ResolveChat(r, pre + core + post, args, lower) == ResolveChat(r, pre' + core' + post', args, lower)
    ensures forall name, rest ::
      (ResolveChat(r, name, [pre + core + post] + rest, lower).Some? <==>
       ResolveChat(r, name, [pre' + core' + post'] + rest, lower).Some?)
  {
    TrimmedIs(pre, core, post);
    TrimmedIs(pre', core', post');
    hide TrimSpace, AllSpace, Bare, CommandAt, MemberAt;
  }

  /** What resolves once goes on resolving to the same command. */
  predicate Extends(r: Registry, r': Registry) {
    && Keeps(r.commands, r'.commands) && Keeps(r.canonical, r'.canonical)
    && forall g | g in r.groups :: g in r'.groups && Keeps(r.groups[g].members, r'.groups[g].members)
  }

  predicate Keeps<V(==)>(m: map<string, V>, m': map<string, V>) {
    forall k | k in m :: k in m' && m'[k] == m[k]
  }

  lemma RegisterExtends(r: Registry, cmd: Command, lower: Lower)
    requires Consistent(r)
    ensures Extends(r, Registered(r, cmd, lower))
  {
    hide Consistent, Acceptable, KeysFree, SubFree, Fold, Added;
    if Acceptable(r, cmd, lower) {
      RegisteredIsAdded(r, cmd, lower);
      AddedExtends(r, cmd, Keys(lower, cmd), Fold(lower, cmd.group), Fold(lower, cmd.sub));
    }
  }

  lemma {:induction false} RunsExtend(cmds: seq<Command>, more: seq<Command>, lower: Lower)
    ensures Extends(After(cmds, lower), After(cmds + more, lower))
  {
    hide Extends, Registered, Consistent;
    if more == [] {
      assert cmds + more == cmds;
      ExtendsItself(After(cmds, lower));
    } else {
      var n := |more| - 1;
      RunsExtend(cmds, more[..n], lower);
      assert (cmds + more)[..|cmds + more| - 1] == cmds + more[..n];
      ConsistentInEveryRun(cmds + more[..n], lower);
      RegisterExtends(After(cmds + more[..n], lower), more[n], lower);
      ExtendsTwice(After(cmds, lower), After(cmds + more[..n], lower), After(cmds + more, lower));
    }
  }

  lemma ExtendsItself(r: Registry)
    ensures Extends(r, r)
  {
  }

  lemma ExtendsTwice(r: Registry, r': Registry, r'': Registry)
    requires Extends(r, r') && Extends(r', r'')
    ensures Extends(r, r'')
  {
  }

  /** However many registrations follow, what a name or a chat message resolved to it still resolves to. */
  lemma ResolutionsNeverChange(cmds: seq<Command>, more: seq<Command>, lower: Lower, name: string, args: seq<string>)
    ensures var before, after := After(cmds, lower), After(cmds + more, lower);
      && (Lookup(before, name, lower).Some? ==> Lookup(after, name, lower) == Lookup(before, name, lower))
      && (ResolveChat(before, name, args, lower).Some? ==>
            ResolveChat(after, name, args, lower) == ResolveChat(before, name, args, lower))
  {
    hide Fold, After;
    RunsExtend(cmds, more, lower);
    ConsistentInEveryRun(cmds, lower);
    ConsistentInEveryRun(cmds + more, lower);
  }

  // ------------------------------------------------------------------ the registry itself

  class CommandRegistry {
    const lower: Lower
    var commands: map<string, Command>
    var canonical: map<string, string>
    var groups: map<string, Group>

    function Value(): Registry
      reads this
    {
      Registry(commands, canonical, groups)
    }

    constructor (lower: Lower)
      ensures Value() == EMPTY && this.lower == lower
    {
      this.lower := lower;
      commands, canonical, groups := map[], map[], map[];
    }

    /** The folded names, or nothing if one of them is blank. */
    method CollectKeys(cmd: Command) returns (keys: Option<seq<string>>)
      ensures keys == if "" in Keys(lower, cmd) then None else Some(Keys(lower, cmd))
    {
      var name := Fold(lower, cmd.name);
      var all := Keys(lower, cmd);
      if name == "" {
        assert all[0] == "";
        return None;
      }
      var collected := [name];
      for k := 0 to |cmd.aliases|
        invariant collected == all[..k + 1] && "" !in collected
      {
        var folded := Fold(lower, cmd.aliases[k]);
        assert all[k + 1] == folded;
        if folded == "" {
          return None;
        }
        collected := collected + [folded];
      }
      assert all[..|all|] == all;
      return Some(collected);
    }

    method CheckKeys(keys: seq<string>, group: string) returns (ok: bool)
      requires "" !in keys
      ensures ok <==> KeysFree(Value(), keys, group)
    {
      var seen: set<string> := {};
      for k := 0 to |keys|
        invariant seen == (set key | key in keys[..k]) && KeysFree(Value(), keys[..k], group)
      {
        var key := keys[k];
        assert key in keys;
        if key in canonical || key in seen || key in groups || key == group {
          if key in seen {
            var i :| 0 <= i < k && keys[..k][i] == key;
            assert keys[i] == keys[k];
          }
          return false;
        }
        seen := seen + {key};
        assert keys[..k + 1] == keys[..k] + [key];
      }
      assert keys[..|keys|] == keys;
      return true;
    }

    /** All or nothing: a refused command leaves no trace, and every other is as if registered in one step. */
    method Register(cmd: Command) returns (ok: bool)
      modifies this
      ensures ok <==> Acceptable(old(Value()), cmd, lower)
      ensures Value() == Registered(old(Value()), cmd, lower)
      ensures !ok ==> Value() == old(Value())
    {
      var keys := CollectKeys(cmd);
      var args := ValidateArgs(lower, cmd.args);
      var grouping := ValidateGrouping(lower, cmd);
      if keys.None? || !cmd.hasHandler || !args || !grouping {
        return false;
      }
      var name, group, sub := Fold(lower, cmd.name), Fold(lower, cmd.group), Fold(lower, cmd.sub);
      var free := CheckKeys(keys.value, group);
      if !free {
        return false;
      }
      if group != "" {
        if group in canonical || (group in groups && sub in groups[group].members) {
          return false;
        }
      }
      commands := commands[name := cmd];
      InsertKeys(keys.value, name);
      if group != "" {
        var existing := if group in groups then groups[group] else Group(TrimSpace(cmd.group), map[]);
        groups := groups[group := existing.(members := existing.members[sub := name])];
      }
      return true;
    }

    method InsertKeys(keys: seq<string>, name: string)
      modifies this`canonical
      ensures canonical == WithKeys(old(canonical), keys, name)
    {
      for k := 0 to |keys|
        invariant canonical == WithKeys(old(canonical), keys[..k], name)
      {
        assert keys[..k + 1] == keys[..k] + [keys[k]];
        canonical := canonical[keys[k] := name];
      }
      assert keys[..|keys|] == keys;
    }
  }
}
