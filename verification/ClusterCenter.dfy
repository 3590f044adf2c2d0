/** The node list of a cluster member: a snapshot from etcd, then watch responses, across closed
    channels, cancelled watches and failed resyncs. */
module ClusterCenter {
  import opened Wrappers
  import opened ActorKeys

  datatype Node = Node(category: string, name: string, addr: string, serverId: int) {
    predicate Valid() { category != "" && name != "" && addr != "" }
    function Id(): string { category + "/" + name }
  }

  /** What the stored bytes decode to as JSON. */
  datatype Bytes = Json(node: Node) | Garbage

  // ---------- keys ----------

  function CutPrefix(s: string, prefix: string): Option<string> {
    if prefix <= s then Some(s[|prefix|..]) else None
  }

  function ParseNodeKey(root: string, key: string): Option<string> { CutPrefix(key, root + "/") }

  function ParseNodeID(id: string): Option<(string, string)> { Cut(id, '/') }

  function ParseNode(root: string, key: string, val: Bytes): Option<(Node, string)> {
    match ParseNodeKey(root, key)
    case None => None
    case Some(id) =>
      match ParseNodeID(id)
      case None => None
      case Some((category, name)) =>
        if val.Json? && val.node.Valid() && val.node.category == category && val.node.name == name
        then Some((val.node, id)) else None
  }

  /** A parsed node is stored under its own ID, and its key is the root followed by that ID. */
  lemma ParsedUnderOwnId(root: string, key: string, val: Bytes)
    ensures ParseNode(root, key, val).Some? ==>
              var (n, id) := ParseNode(root, key, val).value;
              id == n.Id() && key == root + "/" + id && n.Valid() && val == Json(n)
  {
    if ParseNode(root, key, val).Some? {
      CutSplits(ParseNodeKey(root, key).value, '/');
      assert key == root + "/" + ParseNodeKey(root, key).value;
    }
  }

  /** Exactly the valid nodes stored as JSON under the root and their own ID are read, and nothing else. */
  lemma ParseExactly(root: string, key: string, val: Bytes, n: Node, id: string)
    ensures ParseNodeKey(root, key) == Some(id) <==> key == root + "/" + id
    ensures ParseNode(root, key, val) == Some((n, id)) <==>
              && key == root + "/" + id && id == n.category + "/" + n.name && val == Json(n)
              && n.category != "" && '/' !in n.category && n.name != "" && n.addr != ""
  {
    CutSplits(id, '/');
    if '/' !in n.category {
      CutAtFirst(n.category, '/', n.name);
    }
  }

  /** A node with a category free of slashes is read back from the key and value it registers. */
  lemma RegisteredNodeParses(root: string, n: Node)
    requires n.Valid() && '/' !in n.category
    ensures ParseNode(root, root + "/" + n.Id(), Json(n)) == Some((n, n.Id()))
  {
    CutAtFirst(n.category, '/', n.name);
    assert n.Id() == n.category + ['/'] + n.name;
    assert (root + "/" + n.Id())[|root + "/"|..] == n.Id();
  }

  // ---------- etcd ----------

  datatype Change = Put(key: string, val: Bytes) | Delete(key: string)

  /** Entry i is what revision i+1 changed; one revision can change many keys. */
  type History = seq<seq<Change>>

  function Apply(kvs: map<string, Bytes>, c: Change): map<string, Bytes> {
    match c
    case Put(key, val) => kvs[key := val]
    case Delete(key) => kvs - {key}
  }

  function ApplyAll(kvs: map<string, Bytes>, cs: seq<Change>): map<string, Bytes> {
    if cs == [] then kvs else Apply(ApplyAll(kvs, cs[..|cs| - 1]), cs[|cs| - 1])
  }

  /** The keyspace after the first `rev` revisions. */
  function Replay(h: History, rev: nat): map<string, Bytes>
    requires rev <= |h|
  {
    if rev == 0 then map[] else ApplyAll(Replay(h, rev - 1), h[rev - 1])
  }

  function Under(prefix: string, cs: seq<Change>): seq<Change> {
    if cs == [] then []
    else Under(prefix, cs[..|cs| - 1]) + if prefix <= cs[|cs| - 1].key then [cs[|cs| - 1]] else []
  }

  /** The changes after revision `from` up to revision `to` under a prefix, in order. */
  function Changes(h: History, from: nat, to: nat, prefix: string): seq<Change>
    requires from <= to <= |h|
  {
    if from == to then [] else Changes(h, from, to - 1, prefix) + Under(prefix, h[to - 1])
  }

  /** A range read lists every key under the prefix exactly once. */
  ghost predicate ListsAll(list: seq<(string, Bytes)>, kvs: map<string, Bytes>, prefix: string) {
    && (forall i | 0 <= i < |list| :: prefix <= list[i].0 && list[i].0 in kvs && kvs[list[i].0] == list[i].1)
    && (forall i, j | 0 <= i < j < |list| :: list[i].0 != list[j].0)
    && (forall key <- kvs :: prefix <= key ==> exists i | 0 <= i < |list| :: list[i].0 == key)
  }

  // ---------- what the node list should be ----------

  /** The watched prefix is the root, an optional path, and a slash. */
  datatype Config = Config(root: string, prefix: string, self: string) {
    predicate Valid() { root + "/" <= prefix }
    function Key(id: string): string { root + "/" + id }
    function Parse(key: string, val: Bytes): Option<(Node, string)> { ParseNode(root, key, val) }
  }

  type Nodes = map<string, Node>

  /** The node a keyspace holds under an ID: watched, parseable, and not this node itself. */
  function Wanted(cfg: Config, kvs: map<string, Bytes>, id: string): Option<Node> {
    var key := cfg.Key(id);
    if cfg.prefix <= key && key in kvs && id != cfg.self && cfg.Parse(key, kvs[key]).Some?
    then Some(cfg.Parse(key, kvs[key]).value.0) else None
  }

  ghost predicate IsReplica(cfg: Config, nodes: Nodes, kvs: map<string, Bytes>) {
    forall id :: (if id in nodes then Some(nodes[id]) else None) == Wanted(cfg, kvs, id)
  }

  /** The key of this ID is there, but its present value does not parse. */
  predicate Unreadable(cfg: Config, kvs: map<string, Bytes>, id: string) {
    cfg.Key(id) in kvs && cfg.Parse(cfg.Key(id), kvs[cfg.Key(id)]).None?
  }

  /** Exact up to unreadable values: a watch skips them, so an older node may stay listed. */
  ghost predicate Tracks(cfg: Config, nodes: Nodes, kvs: map<string, Bytes>) {
    && (forall id <- nodes :: nodes[id].Id() == id && id != cfg.self && cfg.prefix <= cfg.Key(id))
    && (forall id <- nodes :: Wanted(cfg, kvs, id) == Some(nodes[id]) || Unreadable(cfg, kvs, id))
    && (forall id :: Wanted(cfg, kvs, id).Some? ==> id in nodes && nodes[id] == Wanted(cfg, kvs, id).value)
  }

  /** A tracking list is an exact replica if and only if it lists no node whose value is unreadable. */
  lemma ReplicaExactlyWhenReadable(cfg: Config, nodes: Nodes, kvs: map<string, Bytes>)
    requires Tracks(cfg, nodes, kvs)
    ensures IsReplica(cfg, nodes, kvs) <==> forall id <- nodes :: !Unreadable(cfg, kvs, id)
  {
  }

  // ---------- applying changes ----------

  /** What one watch event does to the node list. */
  function OnChange(cfg: Config, nodes: Nodes, c: Change): Nodes {
    match c
    case Put(key, val) =>
      (match cfg.Parse(key, val)
       case None => nodes
       case Some((n, id)) => if id == cfg.self then nodes else nodes[id := n])
    case Delete(key) =>
      match ParseNodeKey(cfg.root, key)
      case None => nodes
      case Some(id) => nodes - {id}
  }

  function OnChanges(cfg: Config, nodes: Nodes, cs: seq<Change>): Nodes {
    if cs == [] then nodes else OnChange(cfg, OnChanges(cfg, nodes, cs[..|cs| - 1]), cs[|cs| - 1])
  }

  lemma OnChangesSplit(cfg: Config, nodes: Nodes, a: seq<Change>, b: seq<Change>)
    ensures OnChanges(cfg, nodes, a + b) == OnChanges(cfg, OnChanges(cfg, nodes, a), b)
  {
    if b == [] {
      assert a + b == a;
    } else {
      assert (a + b)[..|a + b| - 1] == a + b[..|b| - 1];
      OnChangesSplit(cfg, nodes, a, b[..|b| - 1]);
    }
  }

  /** The last change of a key decides whether its ID is listed and as what. Only a put that does not parse, or
      names this node itself, leaves its ID alone. */
  lemma {:induction false} LastChangeDecides(cfg: Config, nodes: Nodes, cs: seq<Change>, i: nat, id: string)
    requires i <= |cs| && forall j | i <= j < |cs| :: cs[j].key != cfg.Key(id)
    ensures i == 0 ==> (id in OnChanges(cfg, nodes, cs) <==> id in nodes)
    ensures i == 0 && id in nodes ==> OnChanges(cfg, nodes, cs)[id] == nodes[id]
    ensures i > 0 && cs[i - 1] == Delete(cfg.Key(id)) ==> id !in OnChanges(cfg, nodes, cs)
    ensures i > 0 && cs[i - 1].Put? && cs[i - 1].key == cfg.Key(id) && id != cfg.self ==>
              cfg.Parse(cs[i - 1].key, cs[i - 1].val).Some? ==>
              && id in OnChanges(cfg, nodes, cs)
              && OnChanges(cfg, nodes, cs)[id] == cfg.Parse(cs[i - 1].key, cs[i - 1].val).value.0
  {
    if cs != [] {
      var init, c := cs[..|cs| - 1], cs[|cs| - 1];
      KeysDiffer(cfg, id, c.key);
      if c.Put? {
        ParsedUnderOwnId(cfg.root, c.key, c.val);
      }
      if i < |cs| {
        LastChangeDecides(cfg, nodes, init, i, id);
      }
    }
  }

  lemma KeysDiffer(cfg: Config, id: string, key: string)
    ensures cfg.Key(id) == key <==> ParseNodeKey(cfg.root, key) == Some(id)
  {
  }

  lemma ChangeElsewhere(cfg: Config, nodes: Nodes, kvs: map<string, Bytes>, c: Change)
    requires Tracks(cfg, nodes, kvs) && !(cfg.prefix <= c.key)
    ensures Tracks(cfg, nodes, Apply(kvs, c))
  {
  }

  lemma ChangeTracked(cfg: Config, nodes: Nodes, kvs: map<string, Bytes>, c: Change)
    requires cfg.Valid() && Tracks(cfg, nodes, kvs) && cfg.prefix <= c.key
    ensures Tracks(cfg, OnChange(cfg, nodes, c), Apply(kvs, c))
  {
    var nodes', kvs' := OnChange(cfg, nodes, c), Apply(kvs, c);
    forall id
      ensures id in nodes' ==> nodes'[id].Id() == id && id != cfg.self && cfg.prefix <= cfg.Key(id)
      ensures id in nodes' ==> Wanted(cfg, kvs', id) == Some(nodes'[id]) || Unreadable(cfg, kvs', id)
      ensures Wanted(cfg, kvs', id).Some? ==> id in nodes' && nodes'[id] == Wanted(cfg, kvs', id).value
    {
      KeysDiffer(cfg, id, c.key);
      if c.Put? {
        ParsedUnderOwnId(cfg.root, c.key, c.val);
      }
      if cfg.Key(id) != c.key {
        assert Wanted(cfg, kvs', id) == Wanted(cfg, kvs, id);
        assert Unreadable(cfg, kvs', id) <==> Unreadable(cfg, kvs, id);
        assert id in nodes' <==> id in nodes;
      }
    }
  }

  /** Handling only the watched changes keeps track of all of them. */
  lemma {:induction false} WatchedChangesSuffice(cfg: Config, nodes: Nodes, kvs: map<string, Bytes>, cs: seq<Change>)
    requires cfg.Valid() && Tracks(cfg, nodes, kvs)
    ensures Tracks(cfg, OnChanges(cfg, nodes, Under(cfg.prefix, cs)), ApplyAll(kvs, cs))
  {
    if cs != [] {
      var init, c := cs[..|cs| - 1], cs[|cs| - 1];
      WatchedChangesSuffice(cfg, nodes, kvs, init);
      var mine := Under(cfg.prefix, init);
      if cfg.prefix <= c.key {
        assert (mine + [c])[..|mine|] == mine;
        ChangeTracked(cfg, OnChanges(cfg, nodes, mine), ApplyAll(kvs, init), c);
      } else {
        assert mine + [] == mine;
        ChangeElsewhere(cfg, OnChanges(cfg, nodes, mine), ApplyAll(kvs, init), c);
      }
    }
  }

  /** A response that carries the changes since lastRev brings the list up to its revision. */
  lemma {:induction false} ResponseTracked(cfg: Config, nodes: Nodes, h: History, from: nat, to: nat)
    requires cfg.Valid() && from <= to <= |h| && Tracks(cfg, nodes, Replay(h, from))
    ensures Tracks(cfg, OnChanges(cfg, nodes, Changes(h, from, to, cfg.prefix)), Replay(h, to))
  {
    if from < to {
      ResponseTracked(cfg, nodes, h, from, to - 1);
      var earlier := Changes(h, from, to - 1, cfg.prefix);
      WatchedChangesSuffice(cfg, OnChanges(cfg, nodes, earlier), Replay(h, to - 1), h[to - 1]);
      OnChangesSplit(cfg, nodes, earlier, Under(cfg.prefix, h[to - 1]));
    }
  }

  // ---------- when watching is exact ----------

  /** A put that does not parse, over a node that is listed: the watch skips it and keeps the node. */
  predicate Spoils(cfg: Config, nodes: Nodes, c: Change) {
    && c.Put? && cfg.prefix <= c.key && cfg.Parse(c.key, c.val).None?
    && ParseNodeKey(cfg.root, c.key).Some? && ParseNodeKey(cfg.root, c.key).value in nodes
  }

  /** The list after etcd has made these changes: the watch delivers those under the prefix. */
  function NodesAfter(cfg: Config, nodes: Nodes, cs: seq<Change>): Nodes {
    OnChanges(cfg, nodes, Under(cfg.prefix, cs))
  }

  lemma NodesAfterOneMore(cfg: Config, nodes: Nodes, cs: seq<Change>, i: nat)
    requires i < |cs|
    ensures NodesAfter(cfg, nodes, cs[..i + 1]) ==
            if cfg.prefix <= cs[i].key then OnChange(cfg, NodesAfter(cfg, nodes, cs[..i]), cs[i])
            else NodesAfter(cfg, nodes, cs[..i])
  {
    var mine := Under(cfg.prefix, cs[..i]);
    assert cs[..i + 1][..i] == cs[..i];
    assert mine + [] == mine && (mine + [cs[i]])[..|mine|] == mine;
  }

  lemma ReplicaTracks(cfg: Config, nodes: Nodes, kvs: map<string, Bytes>)
    requires IsReplica(cfg, nodes, kvs)
    ensures Tracks(cfg, nodes, kvs)
  {
    forall id <- nodes
      ensures nodes[id].Id() == id && id != cfg.self && cfg.prefix <= cfg.Key(id)
    {
      ParsedUnderOwnId(cfg.root, cfg.Key(id), kvs[cfg.Key(id)]);
      KeysDiffer(cfg, id, cfg.Key(id));
    }
  }

  /** From an exact list, one change leaves an exact list if and only if it does not spoil it. */
  lemma ChangeExact(cfg: Config, nodes: Nodes, kvs: map<string, Bytes>, c: Change)
    requires cfg.Valid() && IsReplica(cfg, nodes, kvs)
    ensures IsReplica(cfg, if cfg.prefix <= c.key then OnChange(cfg, nodes, c) else nodes, Apply(kvs, c))
            <==> !Spoils(cfg, nodes, c)
  {
    var kvs' := Apply(kvs, c);
    ReplicaTracks(cfg, nodes, kvs);
    forall id
      ensures cfg.Key(id) == c.key <==> ParseNodeKey(cfg.root, c.key) == Some(id)
      ensures cfg.Key(id) != c.key ==> Wanted(cfg, kvs', id) == Wanted(cfg, kvs, id)
    {
      KeysDiffer(cfg, id, c.key);
    }
    if cfg.prefix <= c.key {
      var nodes' := OnChange(cfg, nodes, c);
      ChangeTracked(cfg, nodes, kvs, c);
      ReplicaExactlyWhenReadable(cfg, nodes', kvs');
      if Spoils(cfg, nodes, c) {
        assert Unreadable(cfg, kvs', ParseNodeKey(cfg.root, c.key).value);
      } else {
        forall id <- nodes'
          ensures !Unreadable(cfg, kvs', id)
        {
          if cfg.Key(id) != c.key {
            assert id in nodes && Wanted(cfg, kvs, id).Some?;
          }
        }
      }
    }
  }

  lemma {:induction false} UnspoiledIsExact(cfg: Config, nodes: Nodes, kvs: map<string, Bytes>, cs: seq<Change>, i: nat)
    requires cfg.Valid() && IsReplica(cfg, nodes, kvs) && i <= |cs|
    requires forall j | 0 <= j < i :: !Spoils(cfg, NodesAfter(cfg, nodes, cs[..j]), cs[j])
    ensures IsReplica(cfg, NodesAfter(cfg, nodes, cs[..i]), ApplyAll(kvs, cs[..i]))
  {
    if i > 0 {
      UnspoiledIsExact(cfg, nodes, kvs, cs, i - 1);
      NodesAfterOneMore(cfg, nodes, cs, i - 1);
      assert cs[..i][..i - 1] == cs[..i - 1];
      ChangeExact(cfg, NodesAfter(cfg, nodes, cs[..i - 1]), ApplyAll(kvs, cs[..i - 1]), cs[i - 1]);
    }
  }

  ghost predicate AlwaysExact(cfg: Config, nodes: Nodes, kvs: map<string, Bytes>, cs: seq<Change>) {
    forall i | 0 <= i <= |cs| :: IsReplica(cfg, NodesAfter(cfg, nodes, cs[..i]), ApplyAll(kvs, cs[..i]))
  }

  ghost predicate NeverSpoiled(cfg: Config, nodes: Nodes, cs: seq<Change>) {
    forall i | 0 <= i < |cs| :: !Spoils(cfg, NodesAfter(cfg, nodes, cs[..i]), cs[i])
  }

  lemma ExactWhileUnspoiled(cfg: Config, nodes: Nodes, kvs: map<string, Bytes>, cs: seq<Change>)
    requires cfg.Valid() && IsReplica(cfg, nodes, kvs)
    ensures AlwaysExact(cfg, nodes, kvs, cs) <==> NeverSpoiled(cfg, nodes, cs)
  {
    if AlwaysExact(cfg, nodes, kvs, cs) {
      forall i | 0 <= i < |cs|
        ensures !Spoils(cfg, NodesAfter(cfg, nodes, cs[..i]), cs[i])
      {
        NodesAfterOneMore(cfg, nodes, cs, i);
        assert cs[..i + 1][..i] == cs[..i];
        ChangeExact(cfg, NodesAfter(cfg, nodes, cs[..i]), ApplyAll(kvs, cs[..i]), cs[i]);
        assert IsReplica(cfg, NodesAfter(cfg, nodes, cs[..i + 1]), ApplyAll(kvs, cs[..i + 1]));
      }
    }
    if NeverSpoiled(cfg, nodes, cs) {
      forall i | 0 <= i <= |cs|
        ensures IsReplica(cfg, NodesAfter(cfg, nodes, cs[..i]), ApplyAll(kvs, cs[..i]))
      {
        UnspoiledIsExact(cfg, nodes, kvs, cs, i);
      }
    }
  }

  /** All changes after revision `from` up to revision `to`, in order. */
  function Since(h: History, from: nat, to: nat): seq<Change>
    requires from <= to <= |h|
  {
    if from == to then [] else Since(h, from, to - 1) + h[to - 1]
  }

  lemma {:induction false} ApplySplit(kvs: map<string, Bytes>, a: seq<Change>, b: seq<Change>)
    ensures ApplyAll(kvs, a + b) == ApplyAll(ApplyAll(kvs, a), b)
  {
    if b == [] {
      assert a + b == a;
    } else {
      assert (a + b)[..|a + b| - 1] == a + b[..|b| - 1];
      ApplySplit(kvs, a, b[..|b| - 1]);
    }
  }

  lemma {:induction false} UnderSplit(prefix: string, a: seq<Change>, b: seq<Change>)
    ensures Under(prefix, a + b) == Under(prefix, a) + Under(prefix, b)
  {
    if b == [] {
      assert a + b == a;
    } else {
      assert (a + b)[..|a + b| - 1] == a + b[..|b| - 1];
      UnderSplit(prefix, a, b[..|b| - 1]);
    }
  }

  lemma {:induction false} SinceReplays(h: History, from: nat, to: nat, prefix: string)
    requires from <= to <= |h|
    ensures ApplyAll(Replay(h, from), Since(h, from, to)) == Replay(h, to)
    ensures Under(prefix, Since(h, from, to)) == Changes(h, from, to, prefix)
  {
    if from < to {
      SinceReplays(h, from, to - 1, prefix);
      ApplySplit(Replay(h, from), Since(h, from, to - 1), h[to - 1]);
      UnderSplit(prefix, Since(h, from, to - 1), h[to - 1]);
    }
  }

  /** From a resync at revision `from` on, the list is exact after every single change up to revision `to`
      if and only if none of them was a put that does not parse over a listed node. */
  lemma ExactSinceResync(cfg: Config, nodes: Nodes, h: History, from: nat, to: nat)
    requires cfg.Valid() && from <= to <= |h| && IsReplica(cfg, nodes, Replay(h, from))
    ensures AlwaysExact(cfg, nodes, Replay(h, from), Since(h, from, to)) <==> NeverSpoiled(cfg, nodes, Since(h, from, to))
    ensures NeverSpoiled(cfg, nodes, Since(h, from, to)) ==>
              IsReplica(cfg, OnChanges(cfg, nodes, Changes(h, from, to, cfg.prefix)), Replay(h, to))
  {
    var cs := Since(h, from, to);
    ExactWhileUnspoiled(cfg, nodes, Replay(h, from), cs);
    SinceReplays(h, from, to, cfg.prefix);
    if NeverSpoiled(cfg, nodes, cs) {
      UnspoiledIsExact(cfg, nodes, Replay(h, from), cs, |cs|);
      assert cs[..|cs|] == cs;
    }
  }

  /** The node list a snapshot yields: values that do not parse, and this node, are skipped. */
  function Collect(cfg: Config, list: seq<(string, Bytes)>): Nodes {
    if list == [] then map[]
    else
      var nodes := Collect(cfg, list[..|list| - 1]);
      match cfg.Parse(list[|list| - 1].0, list[|list| - 1].1)
      case None => nodes
      case Some((n, id)) => if id == cfg.self then nodes else nodes[id := n]
  }

  /** Exactly the snapshot's readable nodes are listed, each under its ID, except this node itself. */
  lemma {:induction false} CollectExactly(cfg: Config, list: seq<(string, Bytes)>)
    ensures forall id <- Collect(cfg, list) :: id != cfg.self &&
              exists i | 0 <= i < |list| :: cfg.Parse(list[i].0, list[i].1) == Some((Collect(cfg, list)[id], id))
    ensures forall i | 0 <= i < |list| && cfg.Parse(list[i].0, list[i].1).Some? ::
              var id := cfg.Parse(list[i].0, list[i].1).value.1;
              id != cfg.self ==> id in Collect(cfg, list)
  {
    if list != [] {
      var init := list[..|list| - 1];
      CollectExactly(cfg, init);
      assert forall i | 0 <= i < |init| :: init[i] == list[i];
    }
  }

  lemma {:induction false} CollectFinds(cfg: Config, list: seq<(string, Bytes)>, id: string)
    requires forall i, j | 0 <= i < j < |list| :: list[i].0 != list[j].0
    ensures forall i | 0 <= i < |list| && list[i].0 == cfg.Key(id) ::
              (if id in Collect(cfg, list) then Some(Collect(cfg, list)[id]) else None) ==
              if id != cfg.self && cfg.Parse(list[i].0, list[i].1).Some?
              then Some(cfg.Parse(list[i].0, list[i].1).value.0) else None
    ensures (forall i | 0 <= i < |list| :: list[i].0 != cfg.Key(id)) ==> id !in Collect(cfg, list)
  {
    if list != [] {
      var init, last := list[..|list| - 1], list[|list| - 1];
      CollectFinds(cfg, init, id);
      ParsedUnderOwnId(cfg.root, last.0, last.1);
      KeysDiffer(cfg, id, last.0);
      assert forall i | 0 <= i < |init| :: init[i] == list[i];
    }
  }

  /** A snapshot is an exact replica, unreadable values included. */
  lemma SnapshotIsReplica(cfg: Config, list: seq<(string, Bytes)>, kvs: map<string, Bytes>)
    requires ListsAll(list, kvs, cfg.prefix)
    ensures IsReplica(cfg, Collect(cfg, list), kvs) && Tracks(cfg, Collect(cfg, list), kvs)
  {
    var nodes := Collect(cfg, list);
    forall id
      ensures (if id in nodes then Some(nodes[id]) else None) == Wanted(cfg, kvs, id)
      ensures id in nodes ==> nodes[id].Id() == id && id != cfg.self && cfg.prefix <= cfg.Key(id)
    {
      CollectFinds(cfg, list, id);
      if i :| 0 <= i < |list| && list[i].0 == cfg.Key(id) {
        ParsedUnderOwnId(cfg.root, list[i].0, list[i].1);
      }
    }
  }

  // ---------- the object ----------

  datatype NodeEvent = NodeAdd(node: Node) | NodeDel(node: Node)

  /** What the listener is told. */
  datatype Notice = NodesSync(nodes: seq<Node>) | NodeEvents(events: seq<NodeEvent>)

  function ListView(list: seq<Node>): Nodes {
    if list == [] then map[] else ListView(list[..|list| - 1])[list[|list| - 1].Id() := list[|list| - 1]]
  }

  function Hear(view: Nodes, events: seq<NodeEvent>): Nodes {
    if events == [] then view
    else
      var before := Hear(view, events[..|events| - 1]);
      match events[|events| - 1]
      case NodeAdd(n) => before[n.Id() := n]
      case NodeDel(n) => before - {n.Id()}
  }

  /** The list a listener ends up with if it starts empty and follows every notice. */
  function HearAll(notices: seq<Notice>): Nodes {
    if notices == [] then map[]
    else match notices[|notices| - 1]
      case NodesSync(list) => ListView(list)
      case NodeEvents(events) => Hear(HearAll(notices[..|notices| - 1]), events)
  }

  /** The last node, or event, about an ID is what a listener knows about it. */
  lemma {:induction false} LastHeard(view: Nodes, events: seq<NodeEvent>, i: nat, id: string)
    requires i <= |events| && forall j | i <= j < |events| :: events[j].node.Id() != id
    ensures i == 0 ==> (id in Hear(view, events) <==> id in view) && (id in view ==> Hear(view, events)[id] == view[id])
    ensures i > 0 && events[i - 1].node.Id() == id ==>
              (id in Hear(view, events) <==> events[i - 1].NodeAdd?)
              && (events[i - 1].NodeAdd? ==> Hear(view, events)[id] == events[i - 1].node)
  {
    if i < |events| {
      LastHeard(view, events[..|events| - 1], i, id);
    }
  }

  lemma {:induction false} LastListed(list: seq<Node>, i: nat, id: string)
    requires i <= |list| && forall j | i <= j < |list| :: list[j].Id() != id
    ensures i == 0 ==> id !in ListView(list)
    ensures i > 0 && list[i - 1].Id() == id ==> id in ListView(list) && ListView(list)[id] == list[i - 1]
  {
    if i < |list| {
      LastListed(list[..|list| - 1], i, id);
    }
  }

  /** What the watch loop meets: the result of a resync, or something from the watch channel. */
  datatype Signal =
    | SyncFailed
    | Snapshot(rev: nat, list: seq<(string, Bytes)>)
    | Response(rev: nat, events: seq<Change>)
    | ChannelClosed
    | Cancelled(compactedOrFailed: bool)

  /** A resync is due before signal n: the watch was cancelled for good and no snapshot has come since. */
  ghost predicate ResyncDue(feed: seq<Signal>, n: nat)
    requires n <= |feed|
  {
    exists i | 0 <= i < n :: feed[i] == Cancelled(true) && forall j | i < j < n :: !feed[j].Snapshot?
  }

  /** The revision the list is at before signal n: that of the last snapshot or response. */
  ghost function RevAt(startRev: nat, feed: seq<Signal>, n: nat): (rev: nat)
    requires n <= |feed|
    ensures forall i | 0 <= i < n && (feed[i].Snapshot? || feed[i].Response?) &&
                       (forall j | i < j < n :: !feed[j].Snapshot? && !feed[j].Response?) :: rev == feed[i].rev
    ensures (forall i | 0 <= i < n :: !feed[i].Snapshot? && !feed[i].Response?) ==> rev == startRev
  {
    if n == 0 then startRev
    else if feed[n - 1].Snapshot? || feed[n - 1].Response? then feed[n - 1].rev
    else RevAt(startRev, feed, n - 1)
  }

  lemma DueNext(feed: seq<Signal>, n: nat)
    requires n < |feed|
    ensures ResyncDue(feed, n + 1) <==> feed[n] == Cancelled(true) || (ResyncDue(feed, n) && !feed[n].Snapshot?)
  {
    if i :| 0 <= i < n && feed[i] == Cancelled(true) && forall j | i < j < n :: !feed[j].Snapshot? {
      assert !feed[n].Snapshot? ==> forall j | i < j < n + 1 :: !feed[j].Snapshot?;
    }
  }

  /** etcd answers from one history: a resync, and nothing else, happens while one is due, and it reads a
      whole state; a response carries exactly the watched changes between the list's revision and its own. */
  ghost predicate FromHistory(cfg: Config, h: History, startRev: nat, feed: seq<Signal>) {
    && startRev <= |h|
    && forall i | 0 <= i < |feed| ::
         match feed[i]
         case SyncFailed => ResyncDue(feed, i)
         case Snapshot(rev, list) => ResyncDue(feed, i) && rev <= |h| && ListsAll(list, Replay(h, rev), cfg.prefix)
         case Response(rev, events) =>
           && !ResyncDue(feed, i) && RevAt(startRev, feed, i) <= rev <= |h|
           && events == Changes(h, RevAt(startRev, feed, i), rev, cfg.prefix)
         case ChannelClosed => !ResyncDue(feed, i)
         case Cancelled(_) => !ResyncDue(feed, i)
  }

  class Center {
    const cfg: Config
    var nodes: Nodes
    var notices: seq<Notice>

    constructor (cfg: Config)
      ensures this.cfg == cfg && nodes == map[] && notices == []
    {
      this.cfg, nodes, notices := cfg, map[], [];
    }

    method AddNode(id: string, n: Node)
      modifies this`nodes
      ensures nodes == old(nodes)[id := n]
    {
      nodes := nodes[id := n];
    }

    method DelNode(id: string) returns (n: Option<Node>)
      modifies this`nodes
      ensures n == if id in old(nodes) then Some(old(nodes)[id]) else None
      ensures nodes == old(nodes) - {id}
    {
      if id !in nodes {
        return None;
      }
      n := Some(nodes[id]);
      nodes := nodes - {id};
    }

    method SyncNodes(list: seq<(string, Bytes)>)
      modifies this
      ensures nodes == Collect(cfg, list) == HearAll(notices)
      ensures |notices| == |old(notices)| + 1 && notices[..|old(notices)|] == old(notices)
    {
      var nodeMap: Nodes, nodeList := map[], [];
      for i := 0 to |list|
        invariant nodeMap == Collect(cfg, list[..i]) == ListView(nodeList)
        invariant notices == old(notices)
      {
        assert list[..i + 1][..i] == list[..i];
        var parsed := ParseNode(cfg.root, list[i].0, list[i].1);
        if parsed.Some? {
          var (n, id) := parsed.value;
          ParsedUnderOwnId(cfg.root, list[i].0, list[i].1);
          if id != cfg.self {
            assert (nodeList + [n])[..|nodeList|] == nodeList;
            nodeMap := nodeMap[id := n];
            nodeList := nodeList + [n];
          }
        }
      }
      assert list[..|list|] == list;
      nodes := nodeMap;
      notices := notices + [NodesSync(nodeList)];
    }

    /** Applies a response's events one by one and tells the listener those that had an effect. */
    method HandleResponse(changes: seq<Change>)
      requires forall id <- nodes :: nodes[id].Id() == id
      requires nodes == HearAll(notices)
      modifies this
      ensures nodes == OnChanges(cfg, old(nodes), changes)
      ensures nodes == HearAll(notices)
      ensures old(notices) <= notices && |notices| <= |old(notices)| + 1
    {
      var events: seq<NodeEvent> := [];
      for i := 0 to |changes|
        invariant nodes == OnChanges(cfg, old(nodes), changes[..i])
        invariant nodes == Hear(old(nodes), events)
        invariant forall id <- nodes :: nodes[id].Id() == id
        invariant notices == old(notices)
      {
        assert changes[..i + 1][..i] == changes[..i];
        match changes[i] {
          case Put(key, val) =>
            var parsed := ParseNode(cfg.root, key, val);
            if parsed.Some? && parsed.value.1 != cfg.self {
              ParsedUnderOwnId(cfg.root, key, val);
              AddNode(parsed.value.1, parsed.value.0);
              assert (events + [NodeAdd(parsed.value.0)])[..|events|] == events;
              events := events + [NodeAdd(parsed.value.0)];
            }
          case Delete(key) =>
            var id := ParseNodeKey(cfg.root, key);
            if id.Some? {
              var n := DelNode(id.value);
              if n.Some? {
                assert (events + [NodeDel(n.value)])[..|events|] == events;
                events := events + [NodeDel(n.value)];
              }
            }
        }
      }
      assert changes[..|changes|] == changes;
      if |events| > 0 {
        assert (notices + [NodeEvents(events)])[..|notices|] == notices;
        notices := notices + [NodeEvents(events)];
      }
    }

    /** From a list that tracks revision startRev, the loop keeps tracking: after any signals, in any
        order of disconnects, cancellations, failed resyncs and compactions, the list tracks etcd's
        history through the last revision, and the listener has been told exactly this list. */
    method Watch(startRev: nat, feed: seq<Signal>, ghost h: History) returns (lastRev: nat, sync: bool)
      requires cfg.Valid() && FromHistory(cfg, h, startRev, feed)
      requires Tracks(cfg, nodes, Replay(h, startRev)) && nodes == HearAll(notices)
      modifies this
      ensures sync <==> exists i | 0 <= i < |feed| ::
                          feed[i] == Cancelled(true) && forall j | i < j < |feed| :: !feed[j].Snapshot?
      ensures forall i | 0 <= i < |feed| && (feed[i].Snapshot? || feed[i].Response?) &&
                         (forall j | i < j < |feed| :: !feed[j].Snapshot? && !feed[j].Response?) :: lastRev == feed[i].rev
      ensures (forall i | 0 <= i < |feed| :: !feed[i].Snapshot? && !feed[i].Response?) ==> lastRev == startRev
      ensures lastRev <= |h| && Tracks(cfg, nodes, Replay(h, lastRev))
      ensures nodes == HearAll(notices)
      ensures |feed| > 0 && feed[|feed| - 1].Snapshot? ==> !sync && IsReplica(cfg, nodes, Replay(h, lastRev))
    {
      lastRev, sync := startRev, false;
      for i := 0 to |feed|
        invariant sync <==> ResyncDue(feed, i)
        invariant lastRev == RevAt(startRev, feed, i) && lastRev <= |h|
        invariant Tracks(cfg, nodes, Replay(h, lastRev)) && nodes == HearAll(notices)
        invariant i > 0 && feed[i - 1].Snapshot? ==> !sync && IsReplica(cfg, nodes, Replay(h, lastRev))
      {
        DueNext(feed, i);
        match feed[i] {
          case SyncFailed =>
          case Snapshot(rev, list) =>
            SnapshotIsReplica(cfg, list, Replay(h, rev));
            SyncNodes(list);
            lastRev, sync := rev, false;
          case Response(rev, events) =>
            ResponseTracked(cfg, nodes, h, lastRev, rev);
            HandleResponse(events);
            lastRev := rev;
          case ChannelClosed =>
          case Cancelled(bad) =>
            if bad {
              sync := true;
            }
        }
      }
    }
  }

  /** If everything ever put under the prefix parses, nothing is unreadable, so tracking is exact. */
  ghost predicate AllParse(cfg: Config, h: History) {
    forall i, j | 0 <= i < |h| && 0 <= j < |h[i]| && h[i][j].Put? && cfg.prefix <= h[i][j].key ::
      cfg.Parse(h[i][j].key, h[i][j].val).Some?
  }

  ghost predicate Readable(cfg: Config, kvs: map<string, Bytes>) {
    forall key <- kvs :: cfg.prefix <= key ==> cfg.Parse(key, kvs[key]).Some?
  }

  lemma {:induction false} ReplayReadable(cfg: Config, h: History, rev: nat)
    requires rev <= |h| && AllParse(cfg, h)
    ensures Readable(cfg, Replay(h, rev))
  {
    if rev > 0 {
      ReplayReadable(cfg, h, rev - 1);
      ChangesReadable(cfg, Replay(h, rev - 1), h[rev - 1]);
    }
  }

  lemma {:induction false} ChangesReadable(cfg: Config, kvs: map<string, Bytes>, cs: seq<Change>)
    requires Readable(cfg, kvs)
    requires forall j | 0 <= j < |cs| && cs[j].Put? && cfg.prefix <= cs[j].key :: cfg.Parse(cs[j].key, cs[j].val).Some?
    ensures Readable(cfg, ApplyAll(kvs, cs))
  {
    if cs != [] {
      ChangesReadable(cfg, kvs, cs[..|cs| - 1]);
    }
  }

  lemma TrackingIsExact(cfg: Config, nodes: Nodes, h: History, rev: nat)
    requires rev <= |h| && AllParse(cfg, h) && Tracks(cfg, nodes, Replay(h, rev))
    ensures IsReplica(cfg, nodes, Replay(h, rev))
  {
    ReplayReadable(cfg, h, rev);
    ReplicaExactlyWhenReadable(cfg, nodes, Replay(h, rev));
  }

  /** Otherwise watch and snapshot disagree: overwriting a node with an unreadable value leaves it
      listed by a watch, while a snapshot of the same state does not list it. */
  lemma UnreadableOverwrite(cfg: Config, n: Node)
    requires cfg.Valid() && cfg.prefix == cfg.root + "/"
    requires n.Valid() && '/' !in n.category && n.Id() != cfg.self
    ensures var before: map<string, Bytes> := map[cfg.Key(n.Id()) := Json(n)];
            var c := Put(cfg.Key(n.Id()), Garbage);
            var watched := OnChange(cfg, map[n.Id() := n], c);
            && IsReplica(cfg, map[n.Id() := n], before)
            && Tracks(cfg, watched, Apply(before, c)) && !IsReplica(cfg, watched, Apply(before, c))
            && Collect(cfg, [(cfg.Key(n.Id()), Garbage)]) == map[]
  {
    var id := n.Id();
    var before: map<string, Bytes> := map[cfg.Key(id) := Json(n)];
    RegisteredNodeParses(cfg.root, n);
    forall other
      ensures cfg.Key(other) == cfg.Key(id) <==> other == id
    {
      KeysDiffer(cfg, other, cfg.Key(id));
      KeysDiffer(cfg, id, cfg.Key(id));
    }
    assert cfg.prefix <= cfg.Key(id);
    assert Tracks(cfg, map[id := n], before);
    ChangeTracked(cfg, map[id := n], before, Put(cfg.Key(id), Garbage));
    assert Wanted(cfg, Apply(before, Put(cfg.Key(id), Garbage)), id).None?;
  }
}
