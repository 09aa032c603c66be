/**
 Packing a group and its members down to a maximum depth (src/hdf5/pack_group.c and
 src/hdf5/pack_object.c). Hard links may form cycles, so only the depth ends the recursion.
 */
module PackGroup {
  import opened Wrappers
  import opened Msgpack

  const MAX_LINKS_FOR_RECURSION: nat := 20

  datatype LinkKind = Hard(target: nat) | External(target: nat) | Soft(path: Option<string>) | ErrorLink | OtherLink

  datatype Link = Link(name: string, kind: LinkKind)

  /**
   An object in a file. The attributes of a group and the description of a dataset are packed
   elsewhere, and packing them may fail.
   */
  datatype Object =
    | Group(attributes: Option<Value>, links: seq<Link>)
    | Dataset(description: Option<Value>)
    | OtherObject

  /** The objects that can be opened. */
  type Graph = map<nat, Object>

  const Unknown: Value := Map([Entry("hdf5_object", Str("unknown"))])

  function SoftLink(path: string): Value {
    Map([Entry("hdf5_object", Str("soft_link")), Entry("target", Str(path))])
  }

  function GroupMap(attributes: Value, members: seq<Entry>): Value {
    Map([Entry("hdf5_object", Str("group")), Entry("attributes", attributes), Entry("members", Map(members))])
  }

  /** The deepest level at which an object is packed. */
  function Limit(maxDepth: int): nat {
    if maxDepth < 1 then 1 else maxDepth
  }

  /** Members are packed at the top, and further down if there are few of them and the depth allows it. */
  predicate EncodeMembers(nrLinks: nat, depth: nat, maxDepth: int) {
    depth == 0 || (nrLinks <= MAX_LINKS_FOR_RECURSION && depth < maxDepth)
  }

  // ---------- what is packed ----------

  /** The object as one value, or None if part of it cannot be read. */
  function ObjectValue(g: Graph, id: nat, depth: nat, maxDepth: int): Option<Value>
    requires depth <= Limit(maxDepth)
    decreases Limit(maxDepth) - depth, 2, 0
  {
    if id !in g then None
    else match g[id]
      case Group(attributes, links) =>
        if depth > maxDepth then Some(Nil) else GroupValue(g, attributes, links, depth, maxDepth)
      case Dataset(description) => description
      case OtherObject => Some(Unknown)
  }

  function GroupValue(g: Graph, attributes: Option<Value>, links: seq<Link>, depth: nat, maxDepth: int): Option<Value>
    requires depth <= Limit(maxDepth)
    decreases Limit(maxDepth) - depth, 1, |links| + 1
  {
    var members := Members(g, links, EncodeMembers(|links|, depth, maxDepth), depth, maxDepth);
    if attributes.None? || members.None? then None else Some(GroupMap(attributes.value, members.value))
  }

  function Members(g: Graph, links: seq<Link>, encode: bool, depth: nat, maxDepth: int): Option<seq<Entry>>
    requires depth <= Limit(maxDepth) && (encode ==> depth < Limit(maxDepth))
    decreases Limit(maxDepth) - depth, 1, |links|
  {
    if links == [] then Some([])
    else
      var first := MemberValue(g, links[0].kind, encode, depth, maxDepth);
      var rest := Members(g, links[1..], encode, depth, maxDepth);
      if first.None? || rest.None? then None else Some([Entry(links[0].name, first.value)] + rest.value)
  }

  function MemberValue(g: Graph, kind: LinkKind, encode: bool, depth: nat, maxDepth: int): Option<Value>
    requires depth <= Limit(maxDepth) && (encode ==> depth < Limit(maxDepth))
    decreases Limit(maxDepth) - depth, 0, 0
  {
    if !encode then Some(Nil)
    else match kind
      case Hard(target) => ObjectValue(g, target, depth + 1, maxDepth)
      case External(target) => ObjectValue(g, target, depth + 1, maxDepth)
      case Soft(path) => if path.Some? then Some(SoftLink(path.value)) else None
      case ErrorLink => None
      case OtherLink => Some(Unknown)
  }

  // ---------- what is found along every path of links ----------

  /** A group that is packed, and whose members are packed and not replaced by nil. */
  predicate Opened(links: seq<Link>, depth: nat, maxDepth: int) {
    depth <= maxDepth && (depth == 0 || (|links| <= 20 && depth < maxDepth))
  }

  /**
   Where a path leads in the file. It names the hard or external link to follow in each group by its
   position, and goes only through groups whose members are packed.
   */
  function Walk(g: Graph, id: nat, depth: nat, maxDepth: int, path: seq<nat>): Option<nat>
    decreases path
  {
    if path == [] then Some(id)
    else if id !in g || !g[id].Group? then None
    else if !Opened(g[id].links, depth, maxDepth) || path[0] >= |g[id].links| then None
    else match g[id].links[path[0]].kind
      case Hard(target) => Walk(g, target, depth + 1, maxDepth, path[1..])
      case External(target) => Walk(g, target, depth + 1, maxDepth, path[1..])
      case _ => None
  }

  /** Where the same path leads in a decoded value. */
  function Part(v: Value, path: seq<nat>): Option<Value> {
    if path == [] then Some(v)
    else if !IsGroup(v) || path[0] >= |v.entries[2].value.entries| then None
    else Part(v.entries[2].value.entries[path[0]].value, path[1..])
  }

  predicate IsGroup(v: Value) {
    && v.Map? && |v.entries| == 3 && v.entries[0] == Entry("hdf5_object", Str("group"))
    && v.entries[1].key == "attributes" && v.entries[2].key == "members" && v.entries[2].value.Map?
  }

  /** The value of a member that is not an object of its own; nil unless the members are packed. */
  ghost predicate DescribesLink(kind: LinkKind, shown: bool, v: Value) {
    if !shown then v == Nil
    else match kind
      case Soft(path) =>
        path.Some? && v == Map([Entry("hdf5_object", Str("soft_link")), Entry("target", Str(path.value))])
      case ErrorLink => false
      case OtherLink => v == Map([Entry("hdf5_object", Str("unknown"))])
      case _ => true
  }

  /**
   v is what is sent for this one object, at this depth. A group has its attributes and, under its name
   and in order, one member for every link.
   */
  ghost predicate Describes(g: Graph, id: nat, depth: nat, maxDepth: int, v: Value) {
    id in g && match g[id]
      case Dataset(description) => description == Some(v)
      case OtherObject => v == Map([Entry("hdf5_object", Str("unknown"))])
      case Group(attributes, links) =>
        if depth > maxDepth then v == Nil
        else
          && IsGroup(v) && attributes == Some(v.entries[1].value) && |v.entries[2].value.entries| == |links|
          && forall k :: 0 <= k < |links| ==>
               && v.entries[2].value.entries[k].key == links[k].name
               && DescribesLink(links[k].kind, Opened(links, depth, maxDepth), v.entries[2].value.entries[k].value)
  }

  /** Along every path the value describes the object that the path leads to. */
  ghost predicate DescribesAll(g: Graph, id: nat, depth: nat, maxDepth: int, v: Value) {
    forall path | Walk(g, id, depth, maxDepth, path).Some? ::
      && Part(v, path).Some?
      && Describes(g, Walk(g, id, depth, maxDepth, path).value, depth + |path|, maxDepth, Part(v, path).value)
  }

  /** One object and its links can be read. */
  predicate Readable(g: Graph, id: nat, depth: nat, maxDepth: int) {
    id in g && match g[id]
      case Dataset(description) => description.Some?
      case OtherObject => true
      case Group(attributes, links) =>
        depth <= maxDepth ==>
          && attributes.Some?
          && (Opened(links, depth, maxDepth) ==>
                forall k :: 0 <= k < |links| ==> links[k].kind != ErrorLink && links[k].kind != Soft(None))
  }

  ghost predicate ReadableAll(g: Graph, id: nat, depth: nat, maxDepth: int) {
    forall path | Walk(g, id, depth, maxDepth, path).Some? ::
      Readable(g, Walk(g, id, depth, maxDepth, path).value, depth + |path|, maxDepth)
  }

  lemma {:induction false} MembersAt(g: Graph, links: seq<Link>, encode: bool, depth: nat, maxDepth: int, k: nat)
    requires depth <= Limit(maxDepth) && (encode ==> depth < Limit(maxDepth))
    requires Members(g, links, encode, depth, maxDepth).Some? && k < |links|
    ensures |Members(g, links, encode, depth, maxDepth).value| == |links|
    ensures MemberValue(g, links[k].kind, encode, depth, maxDepth).Some?
    ensures Members(g, links, encode, depth, maxDepth).value[k]
         == Entry(links[k].name, MemberValue(g, links[k].kind, encode, depth, maxDepth).value)
    decreases |links|
  {
    MembersLength(g, links, encode, depth, maxDepth);
    if k > 0 { MembersAt(g, links[1..], encode, depth, maxDepth, k - 1); }
  }

  /** Members that are right one by one are what is packed for all of them. */
  lemma {:induction false} MembersFrom(g: Graph, links: seq<Link>, encode: bool, depth: nat, maxDepth: int,
                                       es: seq<Entry>)
    requires depth <= Limit(maxDepth) && (encode ==> depth < Limit(maxDepth)) && |es| == |links|
    requires forall k :: 0 <= k < |links| ==>
               es[k].key == links[k].name && MemberValue(g, links[k].kind, encode, depth, maxDepth) == Some(es[k].value)
    ensures Members(g, links, encode, depth, maxDepth) == Some(es)
    decreases |links|
  {
    if links != [] {
      MembersFrom(g, links[1..], encode, depth, maxDepth, es[1..]);
      assert es == [es[0]] + es[1..];
    }
  }

  /** The value that is packed describes the object itself ... */
  lemma ValueDescribes(g: Graph, id: nat, depth: nat, maxDepth: int)
    requires depth <= Limit(maxDepth) && ObjectValue(g, id, depth, maxDepth).Some?
    ensures Describes(g, id, depth, maxDepth, ObjectValue(g, id, depth, maxDepth).value)
  {
    if g[id].Group? && depth <= maxDepth {
      var links := g[id].links;
      var encode := EncodeMembers(|links|, depth, maxDepth);
      MembersLength(g, links, encode, depth, maxDepth);
      forall k | 0 <= k < |links|
        ensures var e := Members(g, links, encode, depth, maxDepth).value[k];
                e.key == links[k].name && DescribesLink(links[k].kind, encode, e.value)
      {
        MembersAt(g, links, encode, depth, maxDepth, k);
      }
    }
  }

  /** ... and everything that can be reached from it. */
  lemma {:induction false} PartDescribes(g: Graph, id: nat, depth: nat, maxDepth: int, path: seq<nat>)
    requires depth <= Limit(maxDepth) && ObjectValue(g, id, depth, maxDepth).Some?
    requires Walk(g, id, depth, maxDepth, path).Some?
    ensures var part := Part(ObjectValue(g, id, depth, maxDepth).value, path);
            part.Some? && Describes(g, Walk(g, id, depth, maxDepth, path).value, depth + |path|, maxDepth, part.value)
    decreases |path|
  {
    ValueDescribes(g, id, depth, maxDepth);
    if path != [] {
      var link := g[id].links[path[0]];
      MembersAt(g, g[id].links, true, depth, maxDepth, path[0]);
      PartDescribes(g, link.kind.target, depth + 1, maxDepth, path[1..]);
    }
  }

  /** A path that starts with the link k goes on from the target of that link. */
  lemma FollowsLink(g: Graph, id: nat, depth: nat, maxDepth: int, k: nat, rest: seq<nat>)
    requires id in g && g[id].Group? && Opened(g[id].links, depth, maxDepth) && k < |g[id].links|
    requires g[id].links[k].kind.Hard? || g[id].links[k].kind.External?
    ensures Walk(g, id, depth, maxDepth, [k] + rest) == Walk(g, g[id].links[k].kind.target, depth + 1, maxDepth, rest)
  {
    assert ([k] + rest)[1..] == rest;
  }

  /** No other value describes everything that can be reached. */
  lemma {:induction false} OnlyValue(g: Graph, id: nat, depth: nat, maxDepth: int, v: Value)
    requires depth <= Limit(maxDepth) && DescribesAll(g, id, depth, maxDepth, v)
    ensures ObjectValue(g, id, depth, maxDepth) == Some(v)
    decreases Limit(maxDepth) - depth, 1
  {
    assert Walk(g, id, depth, maxDepth, []) == Some(id) && Part(v, []) == Some(v);
    if g[id].Group? && depth <= maxDepth {
      var links, es := g[id].links, v.entries[2].value.entries;
      forall k | 0 <= k < |links|
        ensures MemberValue(g, links[k].kind, EncodeMembers(|links|, depth, maxDepth), depth, maxDepth)
             == Some(es[k].value)
      {
        OnlyMember(g, id, depth, maxDepth, v, k);
      }
      OnlyGroup(g, id, depth, maxDepth, v, es);
    }
  }

  lemma OnlyGroup(g: Graph, id: nat, depth: nat, maxDepth: int, v: Value, es: seq<Entry>)
    requires depth <= Limit(maxDepth) && depth <= maxDepth && Describes(g, id, depth, maxDepth, v) && g[id].Group?
    requires es == v.entries[2].value.entries
    requires forall k :: 0 <= k < |g[id].links| ==>
               MemberValue(g, g[id].links[k].kind, EncodeMembers(|g[id].links|, depth, maxDepth), depth, maxDepth)
               == Some(es[k].value)
    ensures ObjectValue(g, id, depth, maxDepth) == Some(v)
  {
    MembersFrom(g, g[id].links, EncodeMembers(|g[id].links|, depth, maxDepth), depth, maxDepth, es);
    assert v.entries == GroupMap(v.entries[1].value, es).entries;
  }

  lemma {:induction false} OnlyMember(g: Graph, id: nat, depth: nat, maxDepth: int, v: Value, k: nat)
    requires depth <= Limit(maxDepth) && depth <= maxDepth
    requires DescribesAll(g, id, depth, maxDepth, v) && Describes(g, id, depth, maxDepth, v)
    requires g[id].Group? && k < |g[id].links|
    ensures MemberValue(g, g[id].links[k].kind, EncodeMembers(|g[id].links|, depth, maxDepth), depth, maxDepth)
         == Some(v.entries[2].value.entries[k].value)
    decreases Limit(maxDepth) - depth, 0
  {
    var kind := g[id].links[k].kind;
    if Opened(g[id].links, depth, maxDepth) && (kind.Hard? || kind.External?) {
      MemberDescribed(g, id, depth, maxDepth, v, k);
      OnlyValue(g, kind.target, depth + 1, maxDepth, v.entries[2].value.entries[k].value);
    }
  }

  lemma MemberDescribed(g: Graph, id: nat, depth: nat, maxDepth: int, v: Value, k: nat)
    requires DescribesAll(g, id, depth, maxDepth, v) && Describes(g, id, depth, maxDepth, v)
    requires g[id].Group? && Opened(g[id].links, depth, maxDepth) && k < |g[id].links|
    requires g[id].links[k].kind.Hard? || g[id].links[k].kind.External?
    ensures DescribesAll(g, g[id].links[k].kind.target, depth + 1, maxDepth, v.entries[2].value.entries[k].value)
  {
    var target, w := g[id].links[k].kind.target, v.entries[2].value.entries[k].value;
    forall rest | Walk(g, target, depth + 1, maxDepth, rest).Some?
      ensures Part(w, rest).Some? && Describes(g, Walk(g, target, depth + 1, maxDepth, rest).value,
                                               depth + 1 + |rest|, maxDepth, Part(w, rest).value)
    {
      FollowsLink(g, id, depth, maxDepth, k, rest);
      assert ([k] + rest)[1..] == rest;
      assert Part(v, [k] + rest) == Part(w, rest);
    }
  }

  /** If everything that can be reached is readable, the object is packed. */
  lemma {:induction false} ReadablePacks(g: Graph, id: nat, depth: nat, maxDepth: int)
    requires depth <= Limit(maxDepth) && ReadableAll(g, id, depth, maxDepth)
    ensures ObjectValue(g, id, depth, maxDepth).Some?
    decreases Limit(maxDepth) - depth, 1
  {
    assert Walk(g, id, depth, maxDepth, []) == Some(id);
    if g[id].Group? && depth <= maxDepth {
      var links := g[id].links;
      var encode := EncodeMembers(|links|, depth, maxDepth);
      forall k | 0 <= k < |links| ensures MemberValue(g, links[k].kind, encode, depth, maxDepth).Some? {
        if encode && (links[k].kind.Hard? || links[k].kind.External?) { ReadableMember(g, id, depth, maxDepth, k); }
      }
      var es := seq(|links|, k requires 0 <= k < |links| =>
        Entry(links[k].name, MemberValue(g, links[k].kind, encode, depth, maxDepth).value));
      MembersFrom(g, links, encode, depth, maxDepth, es);
    }
  }

  lemma {:induction false} ReadableMember(g: Graph, id: nat, depth: nat, maxDepth: int, k: nat)
    requires depth < Limit(maxDepth) && ReadableAll(g, id, depth, maxDepth)
    requires id in g && g[id].Group? && Opened(g[id].links, depth, maxDepth) && k < |g[id].links|
    requires g[id].links[k].kind.Hard? || g[id].links[k].kind.External?
    ensures ObjectValue(g, g[id].links[k].kind.target, depth + 1, maxDepth).Some?
    decreases Limit(maxDepth) - depth, 0
  {
    var target := g[id].links[k].kind.target;
    forall rest | Walk(g, target, depth + 1, maxDepth, rest).Some?
      ensures Readable(g, Walk(g, target, depth + 1, maxDepth, rest).value, depth + 1 + |rest|, maxDepth)
    {
      FollowsLink(g, id, depth, maxDepth, k, rest);
      assert |[k] + rest| == 1 + |rest|;
    }
    ReadablePacks(g, target, depth + 1, maxDepth);
  }

  /** A value is packed exactly if it describes, along every path, the object that the path leads to. */
  lemma PackedIffDescribed(g: Graph, id: nat, maxDepth: int, v: Value)
    ensures ObjectValue(g, id, 0, maxDepth) == Some(v) <==> DescribesAll(g, id, 0, maxDepth, v)
  {
    if ObjectValue(g, id, 0, maxDepth) == Some(v) {
      forall path | Walk(g, id, 0, maxDepth, path).Some? { PartDescribes(g, id, 0, maxDepth, path); }
    }
    if DescribesAll(g, id, 0, maxDepth, v) { OnlyValue(g, id, 0, maxDepth, v); }
  }

  /** There is such a value exactly if everything that can be reached is readable. */
  lemma PackedIffReadable(g: Graph, id: nat, maxDepth: int)
    ensures ObjectValue(g, id, 0, maxDepth).Some? <==> ReadableAll(g, id, 0, maxDepth)
  {
    if ObjectValue(g, id, 0, maxDepth).Some? {
      forall path | Walk(g, id, 0, maxDepth, path).Some?
        ensures Readable(g, Walk(g, id, 0, maxDepth, path).value, |path|, maxDepth)
      {
        PartDescribes(g, id, 0, maxDepth, path);
      }
    } else if ReadableAll(g, id, 0, maxDepth) {
      ReadablePacks(g, id, 0, maxDepth);
    }
  }

  // ---------- a larger depth only adds detail ----------

  /** v is w with some parts replaced by nil. */
  ghost predicate Prunes(v: Value, w: Value)
    decreases v
  {
    || v == w
    || v == Nil
    || (v.Map? && w.Map? && PrunesAll(v.entries, w.entries))
  }

  ghost predicate PrunesAll(es: seq<Entry>, fs: seq<Entry>)
    decreases es
  {
    && |es| == |fs|
    && (es == [] || (es[0].key == fs[0].key && Prunes(es[0].value, fs[0].value) && PrunesAll(es[1..], fs[1..])))
  }

  lemma {:induction false} PrunesSame(es: seq<Entry>)
    ensures PrunesAll(es, es)
  {
    if es != [] { PrunesSame(es[1..]); }
  }

  lemma {:induction false} PrunesTransitive(u: Value, v: Value, w: Value)
    requires Prunes(u, v) && Prunes(v, w)
    ensures Prunes(u, w)
    decreases u
  {
    if u.Map? && v.Map? && w.Map? && u != v && v != w {
      PrunesAllTransitive(u.entries, v.entries, w.entries);
    }
  }

  lemma {:induction false} PrunesAllTransitive(es: seq<Entry>, fs: seq<Entry>, hs: seq<Entry>)
    requires PrunesAll(es, fs) && PrunesAll(fs, hs)
    ensures PrunesAll(es, hs)
    decreases es
  {
    if es != [] {
      PrunesTransitive(es[0].value, fs[0].value, hs[0].value);
      PrunesAllTransitive(es[1..], fs[1..], hs[1..]);
    }
  }

  /**
   Allowing one more level never turns a failure into a success, and what is packed with fewer
   levels is what is packed with one more, with some parts replaced by nil.
   */
  lemma {:induction false} DeeperObject(g: Graph, id: nat, depth: nat, d: int)
    requires depth <= Limit(d) && ObjectValue(g, id, depth, d + 1).Some?
    ensures ObjectValue(g, id, depth, d).Some?
    ensures Prunes(ObjectValue(g, id, depth, d).value, ObjectValue(g, id, depth, d + 1).value)
    decreases Limit(d) - depth, 2, 0
  {
    match g[id]
    case Group(attributes, links) => { if depth <= d { DeeperGroup(g, attributes, links, depth, d); } }
    case _ => {}
  }

  lemma {:induction false} DeeperGroup(g: Graph, attributes: Option<Value>, links: seq<Link>, depth: nat, d: int)
    requires depth <= Limit(d) && GroupValue(g, attributes, links, depth, d + 1).Some?
    ensures GroupValue(g, attributes, links, depth, d).Some?
    ensures Prunes(GroupValue(g, attributes, links, depth, d).value,
                   GroupValue(g, attributes, links, depth, d + 1).value)
    decreases Limit(d) - depth, 1, |links| + 1
  {
    var e, e' := EncodeMembers(|links|, depth, d), EncodeMembers(|links|, depth, d + 1);
    DeeperMembers(g, links, e, e', depth, d);
    var ms, ms' := Members(g, links, e, depth, d).value, Members(g, links, e', depth, d + 1).value;
    GroupPrunes(attributes.value, ms, ms');
  }

  lemma GroupPrunes(attributes: Value, ms: seq<Entry>, ms': seq<Entry>)
    requires PrunesAll(ms, ms')
    ensures Prunes(GroupMap(attributes, ms), GroupMap(attributes, ms'))
  {
    var es, es' := GroupMap(attributes, ms).entries, GroupMap(attributes, ms').entries;
    assert es[2..] == [Entry("members", Map(ms))] && es'[2..] == [Entry("members", Map(ms'))];
    assert es[2..][1..] == [] && es'[2..][1..] == [];
    assert Prunes(es[2..][0].value, es'[2..][0].value);
    assert PrunesAll(es[2..], es'[2..]);
    assert es[1..][1..] == es[2..] && es'[1..][1..] == es'[2..];
    assert PrunesAll(es[1..], es'[1..]);
  }

  lemma {:induction false} DeeperMembers(g: Graph, links: seq<Link>, e: bool, e': bool, depth: nat, d: int)
    requires depth <= Limit(d) && (e ==> e' && depth < Limit(d)) && (e' ==> depth < Limit(d + 1))
    requires Members(g, links, e', depth, d + 1).Some?
    ensures Members(g, links, e, depth, d).Some?
    ensures PrunesAll(Members(g, links, e, depth, d).value, Members(g, links, e', depth, d + 1).value)
    decreases Limit(d) - depth, 1, |links|
  {
    if links != [] {
      DeeperMember(g, links[0].kind, e, e', depth, d);
      DeeperMembers(g, links[1..], e, e', depth, d);
    }
  }

  lemma {:induction false} DeeperMember(g: Graph, kind: LinkKind, e: bool, e': bool, depth: nat, d: int)
    requires depth <= Limit(d) && (e ==> e' && depth < Limit(d)) && (e' ==> depth < Limit(d + 1))
    requires MemberValue(g, kind, e', depth, d + 1).Some?
    ensures MemberValue(g, kind, e, depth, d).Some?
    ensures Prunes(MemberValue(g, kind, e, depth, d).value, MemberValue(g, kind, e', depth, d + 1).value)
    decreases Limit(d) - depth, 0, 0
  {
    if e {
      match kind
      case Hard(target) => { DeeperObject(g, target, depth + 1, d); }
      case External(target) => { DeeperObject(g, target, depth + 1, d); }
      case _ => {}
    }
  }

  /** The same for any two depths. */
  lemma {:induction false} DeeperOnlyAdds(g: Graph, id: nat, d: int, e: int)
    requires d <= e && ObjectValue(g, id, 0, e).Some?
    ensures ObjectValue(g, id, 0, d).Some?
    ensures Prunes(ObjectValue(g, id, 0, d).value, ObjectValue(g, id, 0, e).value)
    decreases e - d
  {
    if d < e {
      DeeperObject(g, id, 0, e - 1);
      DeeperOnlyAdds(g, id, d, e - 1);
      PrunesTransitive(ObjectValue(g, id, 0, d).value, ObjectValue(g, id, 0, e - 1).value,
                       ObjectValue(g, id, 0, e).value);
    }
  }

  // ---------- the packing functions ----------

  /** The output after packing v, or anything that continues the old output if packing failed. */
  ghost predicate Packed(out: seq<Token>, was: seq<Token>, ok: bool, v: Option<Value>) {
    && (ok <==> v.Some?)
    && (ok ==> out == was + Encode(v.value))
    && was <= out
  }

  /** pack_object_recursive. The depth never exceeds the limit, whatever cycles there are. */
  method PackObjectRecursive(g: Graph, id: nat, pk: Packer, depth: nat, maxDepth: int) returns (ok: bool)
    requires depth <= Limit(maxDepth)
    modifies pk
    ensures Packed(pk.out, old(pk.out), ok, ObjectValue(g, id, depth, maxDepth))
    decreases Limit(maxDepth) - depth, 2, 0
  {
    if id !in g { return false; }
    match g[id]
    case Group(attributes, links) =>
      if depth > maxDepth {
        pk.Put(NilT);
        ok := true;
      } else {
        ok := PackGroupRecursive(g, attributes, links, pk, depth, maxDepth);
      }
    case Dataset(description) =>
      if description.None? { return false; }
      pk.PutAll(Encode(description.value));
      ok := true;
    case OtherObject =>
      PackUnknown(pk);
      ok := true;
  }

  method PackUnknown(pk: Packer)
    modifies pk
    ensures pk.out == old(pk.out) + Encode(Unknown)
  {
    pk.Put(MapT(1));
    pk.PutEntry("hdf5_object", Str("unknown"), pk.out, []);
  }

  method PackSoftLink(pk: Packer, path: Option<string>) returns (ok: bool)
    modifies pk
    ensures Packed(pk.out, old(pk.out), ok, if path.Some? then Some(SoftLink(path.value)) else None)
  {
    if path.None? { return false; }
    pk.Put(MapT(2));
    ghost var base := pk.out;
    pk.PutEntry("hdf5_object", Str("soft_link"), base, []);
    pk.PutEntry("target", Str(path.value), base, [Entry("hdf5_object", Str("soft_link"))]);
    assert [Entry("hdf5_object", Str("soft_link"))] + [Entry("target", Str(path.value))]
           == SoftLink(path.value).entries;
    return true;
  }

  /** pack_group_recursive: a map of three entries; the last one is a map with one entry per link. */
  method PackGroupRecursive(g: Graph, attributes: Option<Value>, links: seq<Link>, pk: Packer, depth: nat,
                            maxDepth: int)
    returns (ok: bool)
    requires depth <= Limit(maxDepth)
    modifies pk
    ensures Packed(pk.out, old(pk.out), ok, GroupValue(g, attributes, links, depth, maxDepth))
    decreases Limit(maxDepth) - depth, 1, |links| + 1
  {
    var encodeMembers := true;
    if depth > 0 {
      if |links| > MAX_LINKS_FOR_RECURSION || depth >= maxDepth { encodeMembers := false; }
    }
    PutHeader(pk);
    if attributes.None? { return false; }
    pk.PutAll(Encode(attributes.value));
    pk.Put(StrT("members"));
    pk.Put(MapT(|links|));
    ghost var start := pk.out;
    ok := VisitLinks(g, links, pk, encodeMembers, depth, maxDepth);
    if ok {
      var members := Members(g, links, encodeMembers, depth, maxDepth).value;
      MembersLength(g, links, encodeMembers, depth, maxDepth);
      GroupTokens(attributes.value, members);
      Regrouped(old(pk.out), GroupHead(), Encode(attributes.value), StrT("members"), MapT(|links|),
                EncodeEntries(members));
    }
  }

  function GroupHead(): seq<Token> {
    [MapT(3), StrT("hdf5_object"), StrT("group"), StrT("attributes")]
  }

  method PutHeader(pk: Packer)
    modifies pk
    ensures pk.out == old(pk.out) + GroupHead()
  {
    pk.Put(MapT(3));
    pk.Put(StrT("hdf5_object"));
    pk.Put(StrT("group"));
    pk.Put(StrT("attributes"));
  }

  lemma GroupTokens(attributes: Value, members: seq<Entry>)
    ensures Encode(GroupMap(attributes, members))
         == GroupHead() + (Encode(attributes) + ([StrT("members"), MapT(|members|)] + EncodeEntries(members)))
  {
    var a, b, c := Entry("hdf5_object", Str("group")), Entry("attributes", attributes), Entry("members", Map(members));
    EncodeEntriesJoin([a, b], [c]);
    EncodeEntriesJoin([a], [b]);
    assert [a] + [b] == [a, b] && [a, b] + [c] == GroupMap(attributes, members).entries;
    assert EncodeEntries([a]) == [StrT("hdf5_object")] + Encode(a.value);
    assert EncodeEntries([b]) == [StrT("attributes")] + Encode(b.value);
    assert EncodeEntries([c]) == [StrT("members")] + Encode(c.value);
    assert Encode(a.value) == [StrT("group")];
  }

  lemma Regrouped<T>(a: seq<T>, b: seq<T>, c: seq<T>, x: T, y: T, d: seq<T>)
    ensures a + b + c + [x] + [y] + d == a + (b + (c + ([x, y] + d)))
  {}

  lemma {:induction false} MembersLength(g: Graph, links: seq<Link>, encode: bool, depth: nat, maxDepth: int)
    requires depth <= Limit(maxDepth) && (encode ==> depth < Limit(maxDepth))
    requires Members(g, links, encode, depth, maxDepth).Some?
    ensures |Members(g, links, encode, depth, maxDepth).value| == |links|
    decreases |links|
  {
    if links != [] { MembersLength(g, links[1..], encode, depth, maxDepth); }
  }

  /** H5Literate2: visit_link is called for every link until one call fails. */
  method VisitLinks(g: Graph, links: seq<Link>, pk: Packer, encode: bool, depth: nat, maxDepth: int) returns (ok: bool)
    requires depth <= Limit(maxDepth) && (encode ==> depth < Limit(maxDepth))
    modifies pk
    ensures old(pk.out) <= pk.out
    ensures ok <==> Members(g, links, encode, depth, maxDepth).Some?
    ensures ok ==> pk.out == old(pk.out) + EncodeEntries(Members(g, links, encode, depth, maxDepth).value)
    decreases Limit(maxDepth) - depth, 1, |links|
  {
    if links == [] { return true; }
    ok := VisitLink(g, links[0], pk, encode, depth, maxDepth);
    if !ok { return false; }
    ok := VisitLinks(g, links[1..], pk, encode, depth, maxDepth);
    if ok {
      var rest := Members(g, links[1..], encode, depth, maxDepth).value;
      var first := Entry(links[0].name, MemberValue(g, links[0].kind, encode, depth, maxDepth).value);
      assert Members(g, links, encode, depth, maxDepth) == Some([first] + rest);
      EncodeEntriesJoin([first], rest);
    }
  }

  /** visit_link: the name, and the member or nil. */
  method VisitLink(g: Graph, link: Link, pk: Packer, encode: bool, depth: nat, maxDepth: int) returns (ok: bool)
    requires depth <= Limit(maxDepth) && (encode ==> depth < Limit(maxDepth))
    modifies pk
    ensures old(pk.out) <= pk.out
    ensures ok <==> MemberValue(g, link.kind, encode, depth, maxDepth).Some?
    ensures ok ==> pk.out == old(pk.out)
                   + EncodeEntries([Entry(link.name, MemberValue(g, link.kind, encode, depth, maxDepth).value)])
    decreases Limit(maxDepth) - depth, 0, 0
  {
    pk.Put(StrT(link.name));
    if encode {
      match link.kind
      case Hard(target) => ok := PackObjectRecursive(g, target, pk, depth + 1, maxDepth);
      case External(target) => ok := PackObjectRecursive(g, target, pk, depth + 1, maxDepth);
      case Soft(path) => ok := PackSoftLink(pk, path);
      case ErrorLink => ok := false;
      case OtherLink => PackUnknown(pk); ok := true;
    } else {
      pk.Put(NilT);
      ok := true;
    }
  }

  /**
   pack_object: it succeeds exactly if everything that can be reached is readable, and then what was
   packed decodes, with nothing left over, to the value that describes every object reached.
   */
  method PackObject(g: Graph, id: nat, pk: Packer, maxDepth: int) returns (ok: bool)
    modifies pk
    ensures ok <==> ReadableAll(g, id, 0, maxDepth)
    ensures ok <==> ObjectValue(g, id, 0, maxDepth).Some?
    ensures ok ==>
              && old(pk.out) <= pk.out
              && Decode(pk.out[|old(pk.out)|..]) == Ok(ObjectValue(g, id, 0, maxDepth).value, [])
              && DescribesAll(g, id, 0, maxDepth, Decode(pk.out[|old(pk.out)|..]).value)
  {
    PackedIffReadable(g, id, maxDepth);
    ok := PackObjectRecursive(g, id, pk, 0, maxDepth);
    if ok {
      var v := ObjectValue(g, id, 0, maxDepth).value;
      PackedIffDescribed(g, id, maxDepth, v);
      RoundTrip(v, []);
      assert pk.out[|old(pk.out)|..] == Encode(v) + [];
    }
  }
}
