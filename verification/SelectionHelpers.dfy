/**
  Which fields a GraphQL request selects (graph/selection_helpers.go): one traversal asks whether a
  path is selected, the other fetches the selections at a path so that their names can be listed.

  CollectFields of the GraphQL library flattens a selection set into fields, following fragments and
  directives. It is a parameter here; what the traversals need of it is `Additive`.
 */
module SelectionHelpers {
  import opened Sequences
  import opened Wrappers
  import F = FieldSet

  /** A field collected from a selection set of nodes `N`. */
  datatype Collected<N> = Collected(name: string, selections: seq<N>)

  /** Some collected field has the name. */
  ghost predicate HasName<N>(fields: seq<Collected<N>>, name: string) {
    exists i :: 0 <= i < |fields| && fields[i].name == name
  }

  /** Concatenated selection sets select together what each selects; the empty one selects nothing. */
  ghost predicate Additive<N(!new)>(collect: seq<N> -> seq<Collected<N>>) {
    && collect([]) == []
    && forall a: seq<N>, b: seq<N>, name: string ::
         HasName(collect(a + b), name) <==> HasName(collect(a), name) || HasName(collect(b), name)
  }

  /** selectionHasPath. */
  predicate HasPath<N(!new)>(collect: seq<N> -> seq<Collected<N>>, sel: seq<N>, path: seq<string>)
    requires path != []
    decreases |path|
  {
    if |sel| == 0 then false
    else
      var fields := collect(sel);
      exists i :: 0 <= i < |fields| && fields[i].name == path[0]
                  && (|path| == 1 || HasPath(collect, fields[i].selections, path[1..]))
  }

  /** What selectionAtPath returns: the concatenated selections at `path`, or None if it is not selected. */
  function AtPath<N(!new)>(collect: seq<N> -> seq<Collected<N>>, sel: seq<N>, path: seq<string>): Option<seq<N>>
    decreases |path|, 1, 0
  {
    if path == [] then Some(sel) else Merge(collect, collect(sel), path)
  }

  function Merge<N(!new)>(collect: seq<N> -> seq<Collected<N>>, fields: seq<Collected<N>>, path: seq<string>)
    : Option<seq<N>>
    requires path != []
    decreases |path|, 0, |fields|
  {
    if fields == [] then None
    else
      var n := |fields| - 1;
      var before := Merge(collect, fields[..n], path);
      var sub := if fields[n].name == path[0] then AtPath(collect, fields[n].selections, path[1..]) else None;
      match (before, sub)
      case (Some(b), Some(s)) => Some(b + s)
      case (Some(b), None) => before
      case (None, _) => sub
  }

  /** selectionAtPath, with its loop. */
  method SelectionAtPath<N(!new)>(collect: seq<N> -> seq<Collected<N>>, sel: seq<N>, path: seq<string>)
    returns (merged: seq<N>, found: bool)
    ensures AtPath(collect, sel, path) == if found then Some(merged) else None
    ensures !found ==> merged == []
    decreases |path|
  {
    if |path| == 0 {
      return sel, true;
    }
    merged, found := [], false;
    var fields := collect(sel);
    for i := 0 to |fields|
      invariant Merge(collect, fields[..i], path) == if found then Some(merged) else None
      invariant !found ==> merged == []
    {
      var f := fields[i];
      assert fields[..i + 1][..i] == fields[..i];
      if f.name != path[0] {
        continue;
      }
      var sub, ok := SelectionAtPath(collect, f.selections, path[1..]);
      if ok {
        assert !found ==> merged + sub == sub;
        merged := merged + sub;
        found := true;
      }
    }
    assert fields[..|fields|] == fields;
  }

  /** collectedFieldNames, with its loop. */
  method CollectedFieldNames<N(!new)>(collect: seq<N> -> seq<Collected<N>>, sel: seq<N>) returns (names: seq<string>)
    ensures forall x :: x in names <==> HasName(collect(sel), x)
  {
    var fields := collect(sel);
    names := [];
    for i := 0 to |fields|
      invariant |names| == i && forall j :: 0 <= j < i ==> names[j] == fields[j].name
    {
      names := names + [fields[i].name];
    }
  }

  // ----- The two traversals agree

  /** A merge succeeds when some matching field leads on, and it names what those lead to. */
  lemma {:induction false} MergeCollects<N(!new)>(
      collect: seq<N> -> seq<Collected<N>>, fields: seq<Collected<N>>, path: seq<string>, x: string)
    requires Additive(collect) && path != []
    ensures Merge(collect, fields, path).Some? <==>
              exists i :: 0 <= i < |fields| && fields[i].name == path[0]
                          && AtPath(collect, fields[i].selections, path[1..]).Some?
    ensures (Merge(collect, fields, path).Some? && HasName(collect(Merge(collect, fields, path).value), x)) <==>
              exists i :: 0 <= i < |fields| && Shows(collect, fields[i], path, x)
    decreases |fields|
  {
    if fields != [] {
      var n := |fields| - 1;
      MergeCollects(collect, fields[..n], path, x);
      var before := Merge(collect, fields[..n], path);
      assert forall i :: 0 <= i < n ==> fields[..n][i] == fields[i];
      if Shows(collect, fields[n], path, x) {
        assert Shows(collect, fields[n], path, x);
      }
      if fields[n].name == path[0] && AtPath(collect, fields[n].selections, path[1..]).Some? && before.Some? {
        var sub := AtPath(collect, fields[n].selections, path[1..]).value;
        assert HasName(collect(before.value + sub), x) <==>
                 HasName(collect(before.value), x) || HasName(collect(sub), x);
      }
    }
  }

  /** Field `f` continues along the path and there selects `x`. */
  ghost predicate Shows<N(!new)>(collect: seq<N> -> seq<Collected<N>>, f: Collected<N>, path: seq<string>, x: string)
    requires path != []
  {
    && f.name == path[0]
    && var sub := AtPath(collect, f.selections, path[1..]);
       sub.Some? && HasName(collect(sub.value), x)
  }

  /** `x` is selected below `path` exactly when it is among the names collected at `path`. */
  lemma {:induction false} TraversalsAgree<N(!new)>(
      collect: seq<N> -> seq<Collected<N>>, sel: seq<N>, path: seq<string>, x: string)
    requires Additive(collect)
    ensures HasPath(collect, sel, path + [x]) <==>
              AtPath(collect, sel, path).Some? && HasName(collect(AtPath(collect, sel, path).value), x)
    decreases |path|
  {
    var fields := collect(sel);
    if path == [] {
      assert path + [x] == [x];
    } else {
      assert (path + [x])[1..] == path[1..] + [x];
      forall i | 0 <= i < |fields|
        ensures HasPath(collect, fields[i].selections, path[1..] + [x]) <==>
                  AtPath(collect, fields[i].selections, path[1..]).Some?
                  && HasName(collect(AtPath(collect, fields[i].selections, path[1..]).value), x)
      {
        TraversalsAgree(collect, fields[i].selections, path[1..], x);
      }
      MergeCollects(collect, fields, path, x);
    }
  }

  /** A path is reached exactly when it is selected. */
  lemma {:induction false} ReachedIffSelected<N(!new)>(
      collect: seq<N> -> seq<Collected<N>>, sel: seq<N>, path: seq<string>)
    requires Additive(collect) && path != []
    ensures AtPath(collect, sel, path).Some? <==> HasPath(collect, sel, path)
    decreases |path|
  {
    var fields := collect(sel);
    MergeCollects(collect, fields, path, "");
    if |path| > 1 {
      forall i | 0 <= i < |fields|
        ensures AtPath(collect, fields[i].selections, path[1..]).Some? <==>
                  HasPath(collect, fields[i].selections, path[1..])
      {
        ReachedIffSelected(collect, fields[i].selections, path[1..]);
      }
    }
  }

  /** Where the k-th field of a chain is collected from. */
  function Above<N>(sel: seq<N>, chain: seq<Collected<N>>, k: nat): seq<N>
    requires k <= |chain|
  {
    if k == 0 then sel else chain[k - 1].selections
  }

  /** `chain` leads from `sel` down the path: each field has the next name and is collected from the one before. */
  ghost predicate Chain<N(!new)>(
      collect: seq<N> -> seq<Collected<N>>, sel: seq<N>, path: seq<string>, chain: seq<Collected<N>>) {
    && |chain| == |path|
    && forall k :: 0 <= k < |path| ==> chain[k].name == path[k] && chain[k] in collect(Above(sel, chain, k))
  }

  lemma ChainTail<N(!new)>(
      collect: seq<N> -> seq<Collected<N>>, sel: seq<N>, path: seq<string>, chain: seq<Collected<N>>)
    requires path != [] && |chain| == |path|
    ensures Chain(collect, sel, path, chain) <==>
              && chain[0].name == path[0] && chain[0] in collect(sel)
              && Chain(collect, chain[0].selections, path[1..], chain[1..])
  {
    var next := chain[0].selections;
    forall k | 0 <= k < |path| - 1
      ensures Above(next, chain[1..], k) == Above(sel, chain, k + 1)
      ensures chain[1..][k] == chain[k + 1] && path[1..][k] == path[k + 1]
    {
    }
    assert Above(sel, chain, 0) == sel;
    if Chain(collect, next, path[1..], chain[1..]) && chain[0].name == path[0] && chain[0] in collect(sel) {
      forall k | 0 <= k < |path|
        ensures chain[k].name == path[k] && chain[k] in collect(Above(sel, chain, k))
      {
        if k > 0 {
          assert chain[1..][k - 1] in collect(Above(next, chain[1..], k - 1));
        }
      }
    }
    if Chain(collect, sel, path, chain) {
      forall k | 0 <= k < |path| - 1
        ensures chain[1..][k].name == path[1..][k] && chain[1..][k] in collect(Above(next, chain[1..], k))
      {
        assert chain[k + 1] in collect(Above(sel, chain, k + 1));
      }
    }
  }

  lemma {:induction false} ChainOfPath<N(!new)>(collect: seq<N> -> seq<Collected<N>>, sel: seq<N>, path: seq<string>)
    returns (chain: seq<Collected<N>>)
    requires path != [] && HasPath(collect, sel, path)
    ensures Chain(collect, sel, path, chain)
    decreases |path|
  {
    var fields := collect(sel);
    var i :| 0 <= i < |fields| && fields[i].name == path[0]
             && (|path| == 1 || HasPath(collect, fields[i].selections, path[1..]));
    var rest := [];
    if |path| > 1 {
      rest := ChainOfPath(collect, fields[i].selections, path[1..]);
    }
    chain := [fields[i]] + rest;
    assert chain[1..] == rest && fields[i] in fields;
    ChainTail(collect, sel, path, chain);
  }

  lemma {:induction false} PathOfChain<N(!new)>(
      collect: seq<N> -> seq<Collected<N>>, sel: seq<N>, path: seq<string>, chain: seq<Collected<N>>)
    requires collect([]) == [] && path != [] && Chain(collect, sel, path, chain)
    ensures HasPath(collect, sel, path)
    decreases |path|
  {
    ChainTail(collect, sel, path, chain);
    NotEmpty(collect, sel);
    if |path| > 1 {
      PathOfChain(collect, chain[0].selections, path[1..], chain[1..]);
    }
  }

  lemma NotEmpty<N(!new)>(collect: seq<N> -> seq<Collected<N>>, sel: seq<N>)
    requires collect([]) == [] && |collect(sel)| > 0
    ensures |sel| > 0
  {
    assert |sel| == 0 ==> sel == [];
  }

  /** A path is selected exactly when some chain of collected fields bears its names. */
  lemma SelectedIffChain<N(!new)>(collect: seq<N> -> seq<Collected<N>>, sel: seq<N>, path: seq<string>)
    requires collect([]) == [] && path != []
    ensures HasPath(collect, sel, path) <==> exists chain :: Chain(collect, sel, path, chain)
  {
    if HasPath(collect, sel, path) {
      var chain := ChainOfPath(collect, sel, path);
    }
    if chain :| Chain(collect, sel, path, chain) {
      PathOfChain(collect, sel, path, chain);
    }
  }

  /** resolveAnalyticsFields inside an operation: a name is in the set exactly when its path is selected. */
  method ResolveAnalyticsFields<N(!new)>(collect: seq<N> -> seq<Collected<N>>, sel: seq<N>, path: seq<string>)
    returns (fields: F.FieldSet)
    requires Additive(collect)
    ensures fields.Names? && forall x :: x in fields.names <==> HasPath(collect, sel, path + [x])
  {
    var at, ok := SelectionAtPath(collect, sel, path);
    forall x
      ensures HasPath(collect, sel, path + [x]) <==> ok && HasName(collect(at), x)
    {
      TraversalsAgree(collect, sel, path, x);
    }
    if !ok {
      fields := F.NewFieldSet([]);
      return;
    }
    var names := CollectedFieldNames(collect, at);
    fields := F.NewFieldSet(names);
  }

  // ----- A collector of that kind

  /** A selection: a field or a fragment, each subject to @skip and @include. */
  datatype Node =
    | FieldNode(alias: string, name: string, included: bool, selections: seq<Node>)
    | Fragment(included: bool, selections: seq<Node>)

  /** The included fields, with fragments opened. */
  function Flatten(sel: seq<Node>): seq<Node> {
    if sel == [] then []
    else
      var head := sel[0];
      (if !head.included then [] else if head.Fragment? then Flatten(head.selections) else [head]) + Flatten(sel[1..])
  }

  datatype Group = Group(alias: string, field: Collected<Node>)

  /** Fields of one alias and name become one field with all their selections. */
  function AddTo(groups: seq<Group>, n: Node): seq<Group>
    requires n.FieldNode?
  {
    if groups == [] then [Group(n.alias, Collected(n.name, n.selections))]
    else if groups[0].alias == n.alias && groups[0].field.name == n.name then
      [groups[0].(field := groups[0].field.(selections := groups[0].field.selections + n.selections))] + groups[1..]
    else [groups[0]] + AddTo(groups[1..], n)
  }

  function GroupAll(nodes: seq<Node>): seq<Group>
    requires forall n :: n in nodes ==> n.FieldNode?
  {
    if nodes == [] then [] else AddTo(GroupAll(nodes[..|nodes| - 1]), nodes[|nodes| - 1])
  }

  function Fields(groups: seq<Group>): (fields: seq<Collected<Node>>)
    ensures |fields| == |groups| && forall i :: 0 <= i < |fields| ==> fields[i] == groups[i].field
  {
    if groups == [] then [] else [groups[0].field] + Fields(groups[1..])
  }

  lemma {:induction false} FlattenGivesFields(sel: seq<Node>)
    ensures forall n :: n in Flatten(sel) ==> n.FieldNode?
    decreases sel
  {
    if sel != [] {
      if sel[0].Fragment? {
        FlattenGivesFields(sel[0].selections);
      }
      FlattenGivesFields(sel[1..]);
    }
  }

  /** Fields by alias and name, in the order of their first appearance. */
  function CollectFields(sel: seq<Node>): seq<Collected<Node>> {
    FlattenGivesFields(sel);
    Fields(GroupAll(Flatten(sel)))
  }

  lemma {:induction false} FlattenOfConcat(a: seq<Node>, b: seq<Node>)
    ensures Flatten(a + b) == Flatten(a) + Flatten(b)
    decreases |a|
  {
    if a == [] {
      assert a + b == b;
    } else {
      assert (a + b)[0] == a[0] && (a + b)[1..] == a[1..] + b;
      FlattenOfConcat(a[1..], b);
      var head := if !a[0].included then [] else if a[0].Fragment? then Flatten(a[0].selections) else [a[0]];
      Associative(head, Flatten(a[1..]), Flatten(b));
    }
  }

  ghost predicate GroupNamed(groups: seq<Group>, name: string) {
    exists i :: 0 <= i < |groups| && groups[i].field.name == name
  }

  lemma {:induction false} AddToNames(groups: seq<Group>, n: Node, name: string)
    requires n.FieldNode?
    ensures GroupNamed(AddTo(groups, n), name) <==> GroupNamed(groups, name) || n.name == name
  {
    if groups == [] {
      assert AddTo(groups, n)[0].field.name == n.name;
    } else {
      assert groups == [groups[0]] + groups[1..];
      assert GroupNamed(groups, name) <==> groups[0].field.name == name || GroupNamed(groups[1..], name) by {
        HeadOrTail(groups, name);
      }
      AddToNames(groups[1..], n, name);
      HeadOrTail(AddTo(groups, n), name);
    }
  }

  lemma HeadOrTail(groups: seq<Group>, name: string)
    requires groups != []
    ensures GroupNamed(groups, name) <==> groups[0].field.name == name || GroupNamed(groups[1..], name)
  {
    if i :| 0 <= i < |groups[1..]| && groups[1..][i].field.name == name {
      assert groups[i + 1].field.name == name;
    }
    if i :| 0 < i < |groups| && groups[i].field.name == name {
      assert groups[1..][i - 1].field.name == name;
    }
  }

  lemma {:induction false} GroupAllNames(nodes: seq<Node>, name: string)
    requires forall n :: n in nodes ==> n.FieldNode?
    ensures GroupNamed(GroupAll(nodes), name) <==> exists n :: n in nodes && n.name == name
    decreases |nodes|
  {
    if nodes != [] {
      var last := |nodes| - 1;
      assert nodes == nodes[..last] + [nodes[last]];
      GroupAllNames(nodes[..last], name);
      AddToNames(GroupAll(nodes[..last]), nodes[last], name);
    }
  }

  lemma CollectedNames(sel: seq<Node>, name: string)
    ensures HasName(CollectFields(sel), name) <==> exists n :: n in Flatten(sel) && n.FieldNode? && n.name == name
  {
    FlattenGivesFields(sel);
    GroupAllNames(Flatten(sel), name);
    assert HasName(CollectFields(sel), name) <==> GroupNamed(GroupAll(Flatten(sel)), name);
  }

  /** Merging aliases, skipping and opening fragments does not spoil what the traversals rely on. */
  lemma CollectFieldsIsAdditive()
    ensures Additive(CollectFields)
  {
    forall a: seq<Node>, b: seq<Node>, name: string
      ensures HasName(CollectFields(a + b), name) <==>
                HasName(CollectFields(a), name) || HasName(CollectFields(b), name)
    {
      FlattenOfConcat(a, b);
      CollectedNames(a, name);
      CollectedNames(b, name);
      CollectedNames(a + b, name);
    }
  }
}
