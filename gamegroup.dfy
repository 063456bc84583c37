/**
 * Gamebox's game groups: named groups whose ordered contents are games and
 * other groups, kept newest first in a list and by id in a vector.  Group
 * ids are offset by 0x80000000 so that game ids and group ids share one
 * 32-bit space without overlapping.  The root group is chosen, or built,
 * on first request and then cached.
 */
module GameGroups {
  import opened Text
  import opened GameSets

  const IdOffset: nat := 0x8000_0000
  const Word: nat := 0x1_0000_0000

  /** A tree node: a game, by game id, or a group, by group index. */
  datatype Node = GameNode(game: nat) | GroupNode(group: nat)

  datatype Group = Group(about: string, title: string, description: Option<string>,
                         contents: seq<Node>, id: nat)

  const RootAbout := "[Root]"
  const RootTitle := "Main"

  /** The index of the most recently added group with that `about`. */
  function LatestGroup(groups: seq<Group>, about: string): (r: Option<nat>)
    ensures r.None? <==> forall k :: 0 <= k < |groups| ==> groups[k].about != about
    ensures r.Some? ==> r.value < |groups| && groups[r.value].about == about
    ensures r.Some? ==> forall k :: r.value < k < |groups| ==> groups[k].about != about
  {
    if |groups| == 0 then None
    else if groups[|groups| - 1].about == about then Some(|groups| - 1)
    else LatestGroup(groups[..|groups| - 1], about)
  }

  lemma {:induction false} LatestGroupIs(groups: seq<Group>, about: string, k: nat)
    requires k < |groups| && groups[k].about == about
    requires forall j :: k < j < |groups| ==> groups[j].about != about
    ensures LatestGroup(groups, about) == Some(k)
    decreases |groups|
  {
    if k < |groups| - 1 {
      LatestGroupIs(groups[..|groups| - 1], about, k);
    }
  }

  /** Lookups by `about` do not see what groups contain. */
  lemma LatestGroupIgnoresContents(groups: seq<Group>, k: nat, contents: seq<Node>, about: string)
    requires k < |groups|
    ensures LatestGroup(groups[k := groups[k].(contents := contents)], about) == LatestGroup(groups, about)
  {
    var changed := groups[k := groups[k].(contents := contents)];
    match LatestGroup(groups, about) {
      case None =>
      case Some(j) => LatestGroupIs(changed, about, j);
    }
  }

  // ---------------------------------------------------------------------
  // Node lists
  // ---------------------------------------------------------------------

  function SetOf(s: seq<Node>): set<Node>
  {
    set i | 0 <= i < |s| :: s[i]
  }

  /** Every node held by `groups[from..]`. */
  function ContentsOf(groups: seq<Group>, from: nat): set<Node>
    decreases |groups| - from
  {
    if from >= |groups| then {} else SetOf(groups[from].contents) + ContentsOf(groups, from + 1)
  }

  /** `s` without the nodes in `gone`, order kept. */
  function Keep(s: seq<Node>, gone: set<Node>): (r: seq<Node>)
    ensures |r| <= |s|
  {
    if |s| == 0 then []
    else Keep(s[..|s| - 1], gone) + (if s[|s| - 1] in gone then [] else [s[|s| - 1]])
  }

  /** `Keep` holds exactly the nodes of `s` that are not in `gone`. */
  lemma {:induction false} KeepMembers(s: seq<Node>, gone: set<Node>)
    ensures forall n :: n in Keep(s, gone) <==> n in s && n !in gone
    decreases |s|
  {
    if |s| > 0 {
      var init, last := s[..|s| - 1], s[|s| - 1];
      KeepMembers(init, gone);
      assert s == init + [last];
      assert forall n :: n in s <==> n in init || n == last;
    }
  }

  lemma {:induction false} KeepMore(s: seq<Node>, gone: set<Node>, x: Node)
    ensures Keep(Keep(s, gone), {x}) == Keep(s, gone + {x})
    decreases |s|
  {
    if |s| > 0 {
      var init, last := s[..|s| - 1], s[|s| - 1];
      KeepMore(init, gone, x);
      var kept := Keep(init, gone);
      if last in gone {
        assert Keep(s, gone) == kept;
      } else {
        assert Keep(s, gone) == kept + [last];
        assert (kept + [last])[..|kept|] == kept;
      }
    }
  }

  /** What the get-root search starts from: every game, then every group, each newest first. */
  function AllNodes(gameCount: nat, groupCount: nat): seq<Node>
  {
    seq(gameCount, i requires 0 <= i < gameCount => GameNode(gameCount - 1 - i))
    + GroupsNewestFirst(groupCount)
  }

  function GroupsNewestFirst(groupCount: nat): seq<Node>
  {
    seq(groupCount, i requires 0 <= i < groupCount => GroupNode(groupCount - 1 - i))
  }

  /** The inner loop of `gamegroup_get_root`: delete every copy of `x`. */
  method RemoveNode(nodes: seq<Node>, x: Node) returns (r: seq<Node>)
    ensures r == Keep(nodes, {x})
  {
    r := nodes;
    var i := 0;
    ghost var p := 0;
    while i < |r|
      invariant 0 <= i <= |r| && 0 <= p <= |nodes|
      invariant r[..i] == Keep(nodes[..p], {x})
      invariant r[i..] == nodes[p..]
      decreases |r| - i
    {
      RemoveStep(nodes, x, r, i, p);
      if r[i] == x {
        r := r[..i] + r[i + 1..];
      } else {
        i := i + 1;
      }
      p := p + 1;
    }
    assert nodes[..p] == nodes;
  }

  /** One step of `RemoveNode`: the node at `i` is deleted when it is `x` and passed over otherwise. */
  lemma RemoveStep(nodes: seq<Node>, x: Node, r: seq<Node>, i: nat, p: nat)
    requires i < |r| && p <= |nodes|
    requires r[..i] == Keep(nodes[..p], {x}) && r[i..] == nodes[p..]
    ensures p < |nodes|
    ensures r[i] == x ==>
      (r[..i] + r[i + 1..])[..i] == Keep(nodes[..p + 1], {x}) && (r[..i] + r[i + 1..])[i..] == nodes[p + 1..]
    ensures r[i] != x ==> r[..i + 1] == Keep(nodes[..p + 1], {x}) && r[i + 1..] == nodes[p + 1..]
  {
    assert r[i..][0] == nodes[p..][0];
    KeepStep(nodes, p, {x});
    assert r[i + 1..] == r[i..][1..] == nodes[p..][1..] == nodes[p + 1..];
    if r[i] == x {
      Drop(r, i);
    } else {
      assert r[..i + 1] == r[..i] + [r[i]];
    }
  }

  lemma KeepStep(s: seq<Node>, p: nat, gone: set<Node>)
    requires p < |s|
    ensures Keep(s[..p + 1], gone) == Keep(s[..p], gone) + (if s[p] in gone then [] else [s[p]])
  {
    assert s[..p + 1][..p] == s[..p];
  }

  lemma Drop(r: seq<Node>, i: nat)
    requires i < |r|
    ensures (r[..i] + r[i + 1..])[..i] == r[..i] && (r[..i] + r[i + 1..])[i..] == r[i + 1..]
  {
  }

  /** What a node added to the root refers to once it is looked up again by location or `about`. */
  function Resolve(n: Node, games: seq<Game>, groups: seq<Group>): Node
    requires Fits(n, |games|, |groups|)
  {
    match n {
      case GameNode(i) => GameNode(Latest(games, games[i].about).value)
      case GroupNode(k) => GroupNode(LatestGroup(groups, groups[k].about).value)
    }
  }

  /** `n` names an existing game or group. */
  predicate Fits(n: Node, gameCount: nat, groupCount: nat)
  {
    (n.GameNode? ==> n.game < gameCount) && (n.GroupNode? ==> n.group < groupCount)
  }

  /** The nodes a manufactured root holds: the uncontained ones, or all groups if none is. */
  function Members(remaining: seq<Node>, groupCount: nat): seq<Node>
  {
    if |remaining| == 0 then GroupsNewestFirst(groupCount) else remaining
  }

  function Resolved(members: seq<Node>, games: seq<Game>, groups: seq<Group>): seq<Node>
    requires forall i :: 0 <= i < |members| ==> Fits(members[i], |games|, |groups|)
  {
    seq(|members|, i requires 0 <= i < |members| => Resolve(members[i], games, groups))
  }

  class Registry {
    /** `groups_vector`: group `k` has id `k`. */
    var groups: seq<Group>
    /** Whether `groups_vector` is allocated. */
    var hasVector: bool
    /** `group_root`, once designated. */
    var root: Option<nat>

    ghost predicate Valid()
      reads this
    {
      (forall k :: 0 <= k < |groups| ==> groups[k].id == k)
      && (|groups| > 0 ==> hasVector)
    }

    constructor ()
      ensures Valid() && groups == [] && !hasVector && root == None
    {
      groups := [];
      hasVector := false;
      root := None;
    }

    /** `gamegroup_add_group`: an empty group with the next id, at the head of the list. */
    method AddGroup(about: string, title: string, description: Option<string>) returns (index: nat)
      requires Valid()
      modifies this
      ensures Valid() && hasVector && root == old(root)
      ensures index == |old(groups)|
      ensures groups == old(groups) + [Group(about, title, description, [], index)]
    {
      hasVector := true;
      index := |groups|;
      groups := groups + [Group(about, title, description, [], index)];
    }

    /** `gamegroup_is_empty` */
    method IsEmpty() returns (empty: bool)
      ensures empty <==> groups == []
    {
      empty := |groups| == 0;
    }

    /** `gamegroup_erase`: no groups and no id vector; the cached root is kept. */
    method Erase()
      modifies this
      ensures Valid() && groups == [] && !hasVector && root == old(root)
    {
      groups := [];
      hasVector := false;
    }

    /** `gamegroup_find_group`: the newest group with that `about`. */
    method FindGroup(name: string) returns (r: Option<nat>)
      ensures r == LatestGroup(groups, name)
    {
      var k := |groups|;
      while k > 0
        invariant 0 <= k <= |groups|
        invariant forall j :: k <= j < |groups| ==> groups[j].about != name
      {
        if groups[k - 1].about == name {
          LatestGroupIs(groups, name, k - 1);
          return Some(k - 1);
        }
        k := k - 1;
      }
      return None;
    }

    /** `gamegroup_add_game_to_group`: append the game found at `location`, if any. */
    method AddGameToGroup(g: nat, location: string, gs: GameSet) returns (added: bool)
      requires Valid() && gs.Valid() && g < |groups|
      modifies this
      ensures Valid() && root == old(root) && hasVector == old(hasVector)
      ensures added <==> Latest(gs.games, location).Some?
      ensures added ==> groups == old(groups)[g := old(groups)[g].(contents :=
        old(groups)[g].contents + [GameNode(Latest(gs.games, location).value)])]
      ensures !added ==> groups == old(groups)
    {
      var game := gs.FindGame(location);
      if game.Some? {
        groups := groups[g := groups[g].(contents := groups[g].contents + [GameNode(game.value.id)])];
      }
      added := game.Some?;
    }

    /** `gamegroup_add_group_to_group`: append the newest group with that `about`, if any. */
    method AddGroupToGroup(g: nat, about: string) returns (added: bool)
      requires Valid() && g < |groups|
      modifies this
      ensures Valid() && root == old(root) && hasVector == old(hasVector)
      ensures added <==> LatestGroup(old(groups), about).Some?
      ensures added ==> groups == old(groups)[g := old(groups)[g].(contents :=
        old(groups)[g].contents + [GroupNode(LatestGroup(old(groups), about).value)])]
      ensures !added ==> groups == old(groups)
    {
      var k := |groups|;
      while k > 0
        invariant 0 <= k <= |groups|
        invariant forall j :: k <= j < |groups| ==> groups[j].about != about
      {
        if groups[k - 1].about == about {
          LatestGroupIs(groups, about, k - 1);
          groups := groups[g := groups[g].(contents := groups[g].contents + [GroupNode(k - 1)])];
          return true;
        }
        k := k - 1;
      }
      return false;
    }

    /**
     * `gamegroup_iterate_group`: from nothing, the first node; from a
     * node, the next one; nothing after the last.  The nodes of a group
     * are visited in the order they were added.
     */
    function IterateGroup(g: nat, node: Option<nat>): (r: Option<nat>)
      reads this
      requires g < |groups|
      requires node.Some? ==> node.value < |groups[g].contents|
      ensures r.Some? ==> r.value < |groups[g].contents|
      ensures node.None? ==> (r.Some? <==> |groups[g].contents| > 0) && (r.Some? ==> r.value == 0)
      ensures node.Some? ==>
        (r.Some? <==> node.value + 1 < |groups[g].contents|) && (r.Some? ==> r.value == node.value + 1)
    {
      var length := |groups[g].contents|;
      match node {
        case None => if length == 0 then None else Some(0)
        case Some(i) => if i + 1 < length then Some(i + 1) else None
      }
    }

    /**
     * `gamegroup_iterate_group` as written: it takes the address of element
     * 0 of the contents before looking at `node`, and the vector asserts
     * that index 0 exists.  `None` is that assertion failing.
     */
    function IterateGroupAsWritten(g: nat, node: Option<nat>): (r: Option<Option<nat>>)
      reads this
      requires g < |groups|
      ensures r.None? <==> |groups[g].contents| == 0 || (node.Some? && node.value >= |groups[g].contents|)
      ensures r.Some? ==> r.value == IterateGroup(g, node)
    {
      var length := |groups[g].contents|;
      if length == 0 then None
      else match node {
        case None => Some(Some(0))
        case Some(i) => if i < length then Some(if i + 1 < length then Some(i + 1) else None) else None
      }
    }

    /** `gamegroup_group_is_empty` */
    method GroupIsEmpty(g: nat) returns (empty: bool)
      requires g < |groups|
      ensures empty <==> groups[g].contents == []
    {
      empty := |groups[g].contents| == 0;
    }

    /** `gamegroup_id_to_group`: remove the offset, wrapping at 32 bits. */
    function IdToGroup(id: nat): (r: Option<Group>)
      reads this
      requires Valid() && hasVector && id < Word
      ensures r.Some? ==> r.value in groups && (r.value.id + IdOffset) % Word == id
    {
      var index := (id + Word - IdOffset) % Word;
      if index < |groups| then Some(groups[index]) else None
    }

    /** The first loop pair of `gamegroup_get_root`: every game and every group, newest first. */
    method ListNodes(gs: GameSet) returns (nodes: seq<Node>)
      ensures nodes == AllNodes(|gs.games|, |groups|)
    {
      var gameCount, groupCount := |gs.games|, |groups|;
      nodes := [];
      var k := gameCount;
      while k > 0
        invariant 0 <= k <= gameCount
        invariant nodes == seq(gameCount - k, i requires 0 <= i < gameCount - k => GameNode(gameCount - 1 - i))
      {
        nodes := nodes + [GameNode(k - 1)];
        k := k - 1;
      }
      var games := nodes;
      k := groupCount;
      while k > 0
        invariant 0 <= k <= groupCount
        invariant nodes == games + seq(groupCount - k, i requires 0 <= i < groupCount - k => GroupNode(groupCount - 1 - i))
      {
        nodes := nodes + [GroupNode(k - 1)];
        k := k - 1;
      }
    }

    /** The second loop of `gamegroup_get_root`: drop every node some group contains. */
    method RemoveContained(nodes: seq<Node>) returns (rest: seq<Node>)
      ensures rest == Keep(nodes, ContentsOf(groups, 0))
    {
      rest := nodes;
      KeepNothing(nodes);
      var k := |groups|;
      while k > 0
        invariant 0 <= k <= |groups|
        invariant rest == Keep(nodes, ContentsOf(groups, k))
      {
        rest := RemoveContents(k - 1, rest, nodes, ContentsOf(groups, k));
        assert ContentsOf(groups, k) + SetOf(groups[k - 1].contents) == ContentsOf(groups, k - 1);
        k := k - 1;
      }
    }

    /** One pass of that loop: walk group `g` and drop each node it holds. */
    method RemoveContents(g: nat, current: seq<Node>, ghost nodes: seq<Node>, ghost gone: set<Node>)
      returns (rest: seq<Node>)
      requires g < |groups| && current == Keep(nodes, gone)
      ensures rest == Keep(nodes, gone + SetOf(groups[g].contents))
    {
      rest := current;
      ghost var contents := groups[g].contents;
      ghost var seen := 0;
      assert contents[..0] == [] && SetOf([]) == {} && gone + {} == gone;
      var node := IterateGroup(g, None);
      while node.Some?
        invariant seen <= |contents|
        invariant node.Some? ==> node.value == seen < |contents|
        invariant node.None? ==> seen == |contents|
        invariant rest == Keep(nodes, gone + SetOf(contents[..seen]))
        decreases |contents| - seen
      {
        var x := groups[g].contents[node.value];
        ghost var removed := gone + SetOf(contents[..seen]);
        KeepMore(nodes, removed, x);
        rest := RemoveNode(rest, x);
        SetOfSnoc(contents, seen);
        assert removed + {x} == gone + SetOf(contents[..seen + 1]);
        seen := seen + 1;
        node := IterateGroup(g, node);
      }
      assert contents[..seen] == contents;
    }

    /** The last loop of `gamegroup_get_root`: look each member up again and add it to the root. */
    method AddMembers(r: nat, members: seq<Node>, gs: GameSet)
      requires Valid() && gs.Valid() && r < |groups|
      requires forall i :: 0 <= i < |members| ==> Fits(members[i], |gs.games|, |groups|)
      modifies this
      ensures Valid() && root == old(root) && hasVector == old(hasVector)
      ensures groups == old(groups)[r := old(groups)[r].(contents :=
        old(groups)[r].contents + Resolved(members, gs.games, old(groups)))]
    {
      ghost var start := groups;
      var i := 0;
      assert Resolved(members[..0], gs.games, start) == [];
      assert start[r].contents + [] == start[r].contents;
      assert start[r := start[r].(contents := start[r].contents + [])] == start;
      while i < |members|
        invariant 0 <= i <= |members| && Valid()
        invariant root == old(root) && hasVector == old(hasVector)
        invariant groups == start[r := start[r].(contents := start[r].contents + Resolved(members[..i], gs.games, start))]
      {
        ResolvedSnoc(members, i, gs.games, start);
        AddMember(r, members[i], gs, start, Resolved(members[..i], gs.games, start));
        i := i + 1;
      }
      assert members[..i] == members;
    }

    /** One pass of that loop: look `member` up again and append what is found to group `r`. */
    method AddMember(r: nat, member: Node, gs: GameSet, ghost start: seq<Group>, ghost done: seq<Node>)
      requires Valid() && gs.Valid() && r < |start| && |groups| == |start|
      requires Fits(member, |gs.games|, |start|)
      requires groups == start[r := start[r].(contents := start[r].contents + done)]
      modifies this
      ensures Valid() && root == old(root) && hasVector == old(hasVector)
      ensures groups == start[r := start[r].(contents := start[r].contents + (done + [Resolve(member, gs.games, start)]))]
    {
      ghost var before := groups;
      ghost var x := Resolve(member, gs.games, start);
      var added: bool;
      match member {
        case GameNode(id) =>
          added := AddGameToGroup(r, gs.games[id].about, gs);
        case GroupNode(k) =>
          assert start[r := start[r].(contents := before[r].contents)] == before;
          LatestGroupIgnoresContents(start, r, before[r].contents, start[k].about);
          added := AddGroupToGroup(r, groups[k].about);
      }
      assert groups == before[r := before[r].(contents := before[r].contents + [x])];
      assert start[r].contents + done + [x] == start[r].contents + (done + [x]);
    }

    /**
     * `gamegroup_get_root`: the cached root if there is one; nothing if
     * there are no games and no groups; the only uncontained node if it is
     * a group; otherwise a new `[Root]` group holding every uncontained
     * node, or every group when every node is contained.
     */
    method GetRoot(gs: GameSet) returns (r: Option<nat>)
      requires Valid() && gs.Valid()
      modifies this
      ensures Valid() && root == r
      ensures old(root).Some? ==> r == old(root) && groups == old(groups)
      ensures old(root).None? && gs.games == [] && old(groups) == [] ==> r.None? && groups == old(groups)
      ensures old(root).None? && (gs.games != [] || old(groups) != []) ==>
        var remaining := Keep(AllNodes(|gs.games|, |old(groups)|), ContentsOf(old(groups), 0));
        if |remaining| == 1 && remaining[0].GroupNode? then
          r == Some(remaining[0].group) && groups == old(groups)
        else
          r == Some(|old(groups)|) && RootBuilt(gs.games, old(groups), remaining, groups)
    {
      if root.Some? {
        return root;
      }
      var noGames := gs.IsEmpty();
      var noGroups := IsEmpty();
      if noGames && noGroups {
        return None;
      }
      var nodes := ListNodes(gs);
      var remaining := RemoveContained(nodes);
      if |remaining| == 1 && remaining[0].GroupNode? {
        root := Some(remaining[0].group);
        return root;
      }
      ghost var before := groups;
      AllNodesFit(|gs.games|, |groups|, ContentsOf(groups, 0));
      var members := remaining;
      if |remaining| == 0 {
        members := GroupsNewestFirst(|groups|);
      }
      forall i | 0 <= i < |members|
        ensures Fits(members[i], |gs.games|, |groups| + 1)
      {
        assert members[i] in members;
      }
      var index := AddGroup(RootAbout, RootTitle, None);
      ghost var withRoot := groups;
      AddMembers(index, members, gs);
      ghost var resolved := Resolved(members, gs.games, withRoot);
      assert [] + resolved == resolved;
      assert members == Members(remaining, |before|);
      assert groups == before + [Group(RootAbout, RootTitle, None, resolved, |before|)];
      root := Some(index);
      r := root;
    }
  }

  /** The groups after a root has been manufactured from `remaining`. */
  ghost predicate RootBuilt(games: seq<Game>, before: seq<Group>, remaining: seq<Node>, after: seq<Group>)
  {
    var withRoot := before + [Group(RootAbout, RootTitle, None, [], |before|)];
    var members := Members(remaining, |before|);
    (forall i :: 0 <= i < |members| ==> Fits(members[i], |games|, |withRoot|))
    && after == before + [Group(RootAbout, RootTitle, None, Resolved(members, games, withRoot), |before|)]
  }

  lemma ResolvedSnoc(members: seq<Node>, i: nat, games: seq<Game>, groups: seq<Group>)
    requires i < |members|
    requires forall j :: 0 <= j < |members| ==> Fits(members[j], |games|, |groups|)
    ensures Resolved(members[..i + 1], games, groups) == Resolved(members[..i], games, groups) + [Resolve(members[i], games, groups)]
  {
    assert forall j :: 0 <= j <= i ==> members[..i + 1][j] == members[j];
  }

  lemma {:induction false} KeepNothing(s: seq<Node>)
    ensures Keep(s, {}) == s
    decreases |s|
  {
    if |s| > 0 {
      var init, last := s[..|s| - 1], s[|s| - 1];
      KeepNothing(init);
      assert Keep(s, {}) == Keep(init, {}) + [last];
      assert init + [last] == s;
    }
  }

  lemma SetOfSnoc(s: seq<Node>, i: nat)
    requires i < |s|
    ensures SetOf(s[..i + 1]) == SetOf(s[..i]) + {s[i]}
  {
    assert forall j :: 0 <= j < i ==> s[..i + 1][j] == s[..i][j];
    assert s[..i + 1][i] == s[i];
  }

  /** Every node the search keeps, or re-adds, names an existing game or group. */
  lemma AllNodesFit(gameCount: nat, groupCount: nat, gone: set<Node>)
    ensures forall n :: n in Keep(AllNodes(gameCount, groupCount), gone) ==> Fits(n, gameCount, groupCount + 1)
    ensures forall n :: n in GroupsNewestFirst(groupCount) ==> Fits(n, gameCount, groupCount + 1)
  {
    var all := AllNodes(gameCount, groupCount);
    KeepMembers(all, gone);
    forall n | n in all
      ensures Fits(n, gameCount, groupCount + 1)
    {
      var i :| 0 <= i < |all| && all[i] == n;
    }
  }

  /** `gamegroup_get_group_id` */
  function GroupId(group: Group): nat
  {
    (group.id + IdOffset) % Word
  }

  /** Group ids and groups translate into each other while fewer than 2^31 groups exist. */
  lemma GroupIdRoundTrip(reg: Registry, group: Group)
    requires reg.Valid() && group in reg.groups && |reg.groups| <= IdOffset
    ensures reg.hasVector && GroupId(group) < Word && reg.IdToGroup(GroupId(group)) == Some(group)
  {
    var k :| 0 <= k < |reg.groups| && reg.groups[k] == group;
    assert group.id == k;
  }

  /** A game id, always below the offset, never names a group. */
  lemma GameIdIsNoGroup(reg: Registry, id: nat)
    requires reg.Valid() && reg.hasVector && id < IdOffset && |reg.groups| <= IdOffset
    ensures reg.IdToGroup(id).None?
  {
  }

  /** `n` and `m` name a game at the same location, or a group with the same `about`. */
  predicate SameReferent(n: Node, m: Node, games: seq<Game>, groups: seq<Group>)
  {
    Fits(n, |games|, |groups|) && Fits(m, |games|, |groups|)
    && (n.GameNode? <==> m.GameNode?)
    && (n.GameNode? ==> games[n.game].about == games[m.game].about)
    && (n.GroupNode? ==> groups[n.group].about == groups[m.group].about)
  }

  /**
   * A manufactured root holds, for each member, a game at the same
   * location or a group with the same `about`.
   */
  lemma RootKeepsLocations(games: seq<Game>, before: seq<Group>, remaining: seq<Node>, after: seq<Group>)
    requires RootBuilt(games, before, remaining, after)
    ensures |after| == |before| + 1
    ensures |after[|before|].contents| == |Members(remaining, |before|)|
    ensures forall i :: 0 <= i < |Members(remaining, |before|)| ==>
      SameReferent(Members(remaining, |before|)[i], after[|before|].contents[i], games, after)
  {
    var withRoot := before + [Group(RootAbout, RootTitle, None, [], |before|)];
    var members := Members(remaining, |before|);
    forall i | 0 <= i < |members|
      ensures SameReferent(members[i], after[|before|].contents[i], games, after)
    {
      assert Fits(members[i], |games|, |withRoot|);
      match members[i] {
        case GameNode(id) =>
        case GroupNode(k) =>
          var j := LatestGroup(withRoot, withRoot[k].about).value;
          assert after[j].about == withRoot[j].about;
      }
    }
  }

  /**
   * Starting to walk an empty group fails the vector's index assertion as
   * written; the corrected walk simply ends at once.
   */
  lemma EmptyGroupWalk(reg: Registry, g: nat)
    requires g < |reg.groups| && reg.groups[g].contents == []
    ensures reg.IterateGroupAsWritten(g, None).None?
    ensures reg.IterateGroup(g, None).None?
  {
  }

  /** Erasing the groups keeps a designated root, which then names no group. */
  method EraseKeepsRoot(reg: Registry, gs: GameSet) returns (r: Option<nat>)
    requires reg.Valid() && gs.Valid() && reg.root.Some?
    modifies reg
    ensures reg.groups == [] && r == old(reg.root) && r.Some? && r.value >= |reg.groups|
  {
    reg.Erase();
    r := reg.GetRoot(gs);
  }
}
