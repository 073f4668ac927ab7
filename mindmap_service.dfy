/**
 * The pure core of the mind-map service: cleaning the model's reply before it is
 * parsed (`clean_json_response`), the fallback tree used when parsing fails
 * (`generate_mindmap_json`), the pre-order rendering of a topic tree as Mermaid
 * lines (`json_to_mermaid`) and the graph and HTML text built from them
 * (`save_mindmap_html`).
 */
module MindmapService {
  import opened Wrappers
  import opened PyStr

  // ===========================================================================
  // clean_json_response
  // ===========================================================================

  /** Three backticks followed by `json`: the opening of a fenced JSON block
      (7 characters). */
  const JsonFence: string := "```json"
  /** Three backticks: the closing of a fenced block (3 characters). */
  const Fence: string := "```"

  /** `re.sub(r"```json\s*", "", s)`: scanning left to right, each occurrence of
      the opening fence is removed together with the whitespace run after it. */
  function RemoveJsonFences(s: string): (r: string)
    ensures |r| <= |s|
    decreases |s|
  {
    if JsonFence <= s then
      var rest := s[7..];
      RemoveJsonFences(rest[LeadingSpaces(rest)..])
    else if s == [] then []
    else [s[0]] + RemoveJsonFences(s[1..])
  }

  /** `s` has the closing fence at `i` with nothing but whitespace after it:
      where `` ```\s*$ `` can match. */
  predicate FenceAt(s: string, i: nat) {
    i + 3 <= |s| && s[i..i + 3] == Fence && AllSpace(s[i + 3..])
  }

  /** The leftmost match of `` ```\s*$ `` at or after `from`, as the regex engine
      searches for it. */
  function TrailingFenceFrom(s: string, from: nat): (r: Option<nat>)
    requires from <= |s|
    ensures r.Some? ==> from <= r.value && FenceAt(s, r.value)
    decreases |s| - from
  {
    if from + 3 > |s| then None
    else if FenceAt(s, from) then Some(from)
    else TrailingFenceFrom(s, from + 1)
  }

  /** `re.sub(r"```\s*$", "", s)` */
  function RemoveTrailingFence(s: string): (r: string)
    ensures r <= s
  {
    match TrailingFenceFrom(s, 0)
    case Some(i) => s[..i]
    case None => s
  }

  /** `clean_json_response(content)` */
  function CleanJsonResponse(content: string): (r: string)
    ensures IsStripped(r)
  {
    Strip(RemoveTrailingFence(RemoveJsonFences(content)))
  }

  /** A closing fence followed only by whitespace ends where the trailing
      whitespace of `s` begins. */
  lemma FenceAtEnd(s: string, i: nat)
    ensures FenceAt(s, i) ==> i + 3 == |s| - TrailingSpaces(s)
  {
    if FenceAt(s, i) {
      var n := TrailingSpaces(s);
      var tail := s[i + 3..];
      assert s[i + 2] == s[i..i + 3][2] == '`';
      assert !IsSpace(s[i + 2]);
      assert i + 2 < |s| - n;
      assert !IsSpace(s[|s| - 1 - n]);
      assert forall k :: i + 3 <= k < |s| ==> IsSpace(s[k]) by {
        forall k | i + 3 <= k < |s| ensures IsSpace(s[k]) {
          assert s[k] == tail[k - i - 3];
        }
      }
      assert |s| - 1 - n < i + 3;
    }
  }

  /** So `` ```\s*$ `` can match at one place at most. */
  lemma FenceAtUnique(s: string, i: nat, j: nat)
    requires FenceAt(s, i) && FenceAt(s, j)
    ensures i == j
  {
    FenceAtEnd(s, i);
    FenceAtEnd(s, j);
  }

  lemma {:induction false} ScanFinds(s: string, from: nat, i: nat)
    requires from <= i && FenceAt(s, i)
    ensures TrailingFenceFrom(s, from) == Some(i)
    decreases i - from
  {
    if from < i {
      FenceAtEnd(s, from);
      FenceAtEnd(s, i);
      ScanFinds(s, from + 1, i);
    }
  }

  lemma {:induction false} ScanMisses(s: string, from: nat)
    requires from <= |s|
    requires forall j :: from <= j ==> !FenceAt(s, j)
    ensures TrailingFenceFrom(s, from) == None
    decreases |s| - from
  {
    if from + 3 <= |s| {
      ScanMisses(s, from + 1);
    }
  }

  /** The closing-fence removal cuts `s` just before its last three
      non-whitespace characters when these are three backticks ... */
  lemma RemoveTrailingFenceCuts(s: string)
    requires var t := |s| - TrailingSpaces(s); t >= 3 && s[t - 3..t] == Fence
    ensures RemoveTrailingFence(s) == s[..|s| - TrailingSpaces(s) - 3]
  {
    FenceBeforeTrailingRun(s, |s| - TrailingSpaces(s));
    RemoveTrailingFenceAt(s, |s| - TrailingSpaces(s) - 3);
  }

  lemma FenceBeforeTrailingRun(s: string, t: nat)
    requires t == |s| - TrailingSpaces(s) && t >= 3 && s[t - 3..t] == Fence
    ensures FenceAt(s, t - 3)
  {
    TrailingRunIsBlank(s);
  }

  /** Where `` ```\s*$ `` matches, the text is cut. */
  lemma RemoveTrailingFenceAt(s: string, i: nat)
    requires FenceAt(s, i)
    ensures RemoveTrailingFence(s) == s[..i]
  {
    ScanFinds(s, 0, i);
  }

  /** ... and otherwise leaves `s` alone. */
  lemma RemoveTrailingFenceKeeps(s: string)
    requires var t := |s| - TrailingSpaces(s); !(t >= 3 && s[t - 3..t] == Fence)
    ensures RemoveTrailingFence(s) == s
  {
    forall j | 0 <= j ensures !FenceAt(s, j) {
      FenceAtEnd(s, j);
    }
    ScanMisses(s, 0);
  }

  /** The opening fence starts at position `i` of `s`. */
  predicate OpensAt(s: string, i: nat) {
    i + 7 <= |s| && s[i..i + 7] == JsonFence
  }

  /** Text in which no opening fence starts passes through the opening-fence
      removal unchanged, whatever follows it. */
  lemma {:induction false} RemoveJsonFencesPassesPrefix(a: string, b: string)
    requires forall i :: 0 <= i < |a| ==> !OpensAt(a + b, i)
    ensures RemoveJsonFences(a + b) == a + RemoveJsonFences(b)
    decreases |a|
  {
    if a == [] {
      assert a + b == b;
    } else {
      var s := a + b;
      assert !OpensAt(s, 0);
      assert !(JsonFence <= s) by {
        if |s| >= 7 { assert s[0..7] == s[..7]; }
      }
      assert s[1..] == a[1..] + b;
      forall i | 0 <= i < |a[1..]| ensures !OpensAt(a[1..] + b, i) {
        assert !OpensAt(s, i + 1);
        if i + 7 <= |a[1..] + b| {
          assert (a[1..] + b)[i..i + 7] == s[i + 1..i + 8];
        }
      }
      RemoveJsonFencesPassesPrefix(a[1..], b);
      PrependHead(a, RemoveJsonFences(b));
    }
  }

  /** No opening fence starts inside text without a backtick. */
  lemma NoBacktickNoOpening(a: string, b: string)
    requires '`' !in a
    ensures forall i :: 0 <= i < |a| ==> !OpensAt(a + b, i)
  {
    forall i | 0 <= i < |a| ensures !OpensAt(a + b, i) {
      assert (a + b)[i] == a[i];
      if i + 7 <= |a + b| { assert (a + b)[i..i + 7][0] == (a + b)[i]; }
    }
  }

  /** The first substitution keeps everything before the leftmost opening
      fence, drops that fence with the whitespace run after it, and goes on
      scanning from there. */
  lemma RemoveJsonFencesLeftmost(s: string, i: nat)
    requires OpensAt(s, i)
    requires forall j :: 0 <= j < i ==> !OpensAt(s, j)
    ensures var rest := s[i + 7..];
      RemoveJsonFences(s) == s[..i] + RemoveJsonFences(rest[LeadingSpaces(rest)..])
  {
    var a, b := s[..i], s[i..];
    assert s == a + b;
    RemoveJsonFencesPassesPrefix(a, b);
    assert b[..7] == s[i..i + 7];
    assert b[7..] == s[i + 7..];
  }

  /** Without an opening fence in `s`, the first substitution changes nothing. */
  lemma {:induction false} RemoveJsonFencesAbsent(s: string)
    requires !Contains(s, JsonFence)
    ensures RemoveJsonFences(s) == s
    decreases |s|
  {
    if s != [] {
      RemoveJsonFencesAbsent(s[1..]);
      assert [s[0]] + s[1..] == s;
    }
  }

  /** Without a backtick in the reply, cleaning is just `strip()`. */
  lemma CleanWithoutBackticks(content: string)
    requires '`' !in content
    ensures CleanJsonResponse(content) == Strip(content)
  {
    NotContainsMissingChar(content, JsonFence, '`');
    RemoveJsonFencesAbsent(content);
    forall j | 0 <= j ensures !FenceAt(content, j) {
      if j + 3 <= |content| {
        assert content[j..j + 3][0] == content[j] != '`';
      }
    }
    ScanMisses(content, 0);
  }

  /** The opening fence goes together with the whitespace after it and the
      leading whitespace of what follows. */
  lemma OpeningFenceRemoved(w1: string, body: string, tail: string)
    requires AllSpace(w1) && '`' !in body
    requires tail != [] && tail[0] == '`' && 'j' !in tail
    ensures RemoveJsonFences(JsonFence + w1 + body + tail) == body[LeadingSpaces(body)..] + tail
  {
    assert JsonFence + w1 + body + tail == JsonFence + (w1 + body + tail);
    RemoveJsonFencesAtFence(w1 + body + tail);
    SkipLeadingSpaces(w1, body, tail);
    NoBacktickNoOpening(body[LeadingSpaces(body)..], tail);
    RemoveJsonFencesPassesPrefix(body[LeadingSpaces(body)..], tail);
    NotContainsMissingChar(tail, JsonFence, 'j');
    RemoveJsonFencesAbsent(tail);
  }

  /** An opening fence goes together with the whitespace after it. */
  lemma RemoveJsonFencesAtFence(rest: string)
    ensures RemoveJsonFences(JsonFence + rest) == RemoveJsonFences(rest[LeadingSpaces(rest)..])
  {
    assert (JsonFence + rest)[7..] == rest;
  }

  /** A closing fence with only whitespace after it is cut off, whatever comes
      before it. */
  lemma ClosingFenceRemoved(b: string, w2: string)
    requires AllSpace(w2)
    ensures RemoveTrailingFence(b + Fence + w2) == b
  {
    var v := b + Fence + w2;
    assert v[|b|..|b| + 3] == Fence;
    assert v[|b| + 3..] == w2;
    RemoveTrailingFenceAt(v, |b|);
    assert v[..|b|] == b;
  }

  /** A reply wrapped in a fenced JSON block, with any whitespace around the
      fences and no backtick inside, cleans to the stripped body. */
  lemma CleanFencedJson(w1: string, body: string, w2: string)
    requires AllSpace(w1) && AllSpace(w2) && '`' !in body
    ensures CleanJsonResponse(JsonFence + w1 + body + Fence + w2) == Strip(body)
  {
    var tail := Fence + w2;
    assert 'j' !in tail by {
      forall k | 0 <= k < |tail| ensures tail[k] != 'j' {
        if k >= 3 { assert tail[k] == w2[k - 3]; }
      }
    }
    OpeningFenceRemoved(w1, body, tail);
    var b := body[LeadingSpaces(body)..];
    assert JsonFence + w1 + body + tail == JsonFence + w1 + body + Fence + w2;
    assert b + tail == b + Fence + w2;
    ClosingFenceRemoved(b, w2);
    StripDropsLeadingSpaces(body);
  }

  // ===========================================================================
  // Topic trees and the parse-failure fallback
  // ===========================================================================

  /** A node of the topic tree as the model's JSON gives it: the top node carries
      its title under "root", the others under "name"; a missing "children" key
      reads as no children. */
  datatype TopicNode = TopicNode(name: Option<string>, root: Option<string>, children: seq<TopicNode>)

  /** `node.get("name", node.get("root", "Topic"))` */
  function Label(node: TopicNode): (r: string)
    ensures node.name.Some? ==> r == node.name.value
    ensures node.name.None? && node.root.Some? ==> r == node.root.value
    ensures node.name.None? && node.root.None? ==> r == "Topic"
  {
    node.name.GetOr(node.root.GetOr("Topic"))
  }

  /** The tree substituted when the model's reply is not valid JSON. */
  const ErrorTree: TopicNode :=
    TopicNode(None, Some("Error Parsing JSON"), [TopicNode(Some("Raw Text"), None, [])])

  /** `generate_mindmap_json` after the model has replied with `content`: the
      cleaned reply is handed to the JSON parser `parse`, and a parse failure
      yields the fallback tree. */
  function MindmapFromReply(content: string, parse: string -> Option<TopicNode>): (t: TopicNode)
    ensures parse(CleanJsonResponse(content)).Some? ==> t == parse(CleanJsonResponse(content)).value
    ensures parse(CleanJsonResponse(content)).None? ==> t == ErrorTree
  {
    match parse(CleanJsonResponse(content))
    case Some(tree) => tree
    case None => ErrorTree
  }

  // ===========================================================================
  // json_to_mermaid
  // ===========================================================================

  /** `label.replace('"', "'")`: a label that cannot end the diagram's string. */
  function Sanitize(caption: string): (r: string)
    ensures |r| == |caption| && '"' !in r
  {
    ReplaceChar(caption, '"', '\'');
    Replace(caption, ['"'], ['\''])
  }

  /** Each double quote becomes a single quote; every other character stays. */
  lemma SanitizePointwise(caption: string)
    ensures forall i :: 0 <= i < |caption| ==>
      Sanitize(caption)[i] == if caption[i] == '"' then '\'' else caption[i]
  {
    ReplaceChar(caption, '"', '\'');
  }

  /** A label without double quotes is left as it is. */
  lemma SanitizeClean(caption: string)
    requires '"' !in caption
    ensures Sanitize(caption) == caption
  {
    SanitizePointwise(caption);
  }

  /** One emitted Mermaid line: the standalone declaration of the top node, or
      an edge from a parent to a newly declared child. */
  datatype Line =
    | RootDecl(id: nat, caption: string)
    | Edge(parentId: nat, childId: nat, caption: string)
  {
    /** The node this line declares. */
    function Declared(): nat {
      match this
      case RootDecl(id, _) => id
      case Edge(_, c, _) => c
    }
  }

  /** The line for node `id`, with a parent or without one. */
  function NodeLine(parent: Option<nat>, id: nat, caption: string): (l: Line)
    ensures l.Declared() == id && l.caption == caption
    ensures parent.None? <==> l.RootDecl?
    ensures parent.Some? ==> l.Edge? && l.parentId == parent.value
  {
    match parent
    case None => RootDecl(id, caption)
    case Some(p) => Edge(p, id, caption)
  }

  /** The lines of a subtree and the next free node number. */
  datatype Rendered = Rendered(lines: seq<Line>, next: nat)

  /** `json_to_mermaid(node, parent_id, node_id)`: the node's own line, then the
      lines of each child subtree in order, the counter threaded through. */
  function Render(node: TopicNode, parent: Option<nat>, id: nat): Rendered
    decreases node, 1
  {
    var rest := RenderChildren(node, 0, id, id + 1);
    Rendered([NodeLine(parent, id, Sanitize(Label(node)))] + rest.lines, rest.next)
  }

  /** The loop over `node`'s children from the `k`-th on, with the counter at `counter`. */
  function RenderChildren(node: TopicNode, k: nat, parentId: nat, counter: nat): Rendered
    requires k <= |node.children|
    decreases node, 0, |node.children| - k
  {
    if k == |node.children| then Rendered([], counter)
    else
      var first := Render(node.children[k], Some(parentId), counter);
      var rest := RenderChildren(node, k + 1, parentId, first.next);
      Rendered(first.lines + rest.lines, rest.next)
  }

  /** The nodes of a tree in pre-order: a node, then each child subtree in order. */
  function Preorder(node: TopicNode): (r: seq<TopicNode>)
    ensures |r| >= 1 && r[0] == node
    decreases node, 1
  {
    [node] + PreorderFrom(node, 0)
  }

  function PreorderFrom(node: TopicNode, k: nat): seq<TopicNode>
    requires k <= |node.children|
    decreases node, 0, |node.children| - k
  {
    if k == |node.children| then []
    else Preorder(node.children[k]) + PreorderFrom(node, k + 1)
  }

  /** Number of nodes in a tree. */
  function Size(node: TopicNode): nat {
    |Preorder(node)|
  }

  /** Line `i` declares node `start + i`, labelled with the sanitised label of
      the `i`-th node of `nodes`. */
  ghost predicate Numbered(lines: seq<Line>, start: nat, nodes: seq<TopicNode>) {
    |lines| == |nodes|
    && forall i :: 0 <= i < |lines| ==>
         lines[i].Declared() == start + i && lines[i].caption == Sanitize(Label(nodes[i]))
  }

  /** Every line is an edge whose parent is `pid` or a node declared by an
      earlier line of `lines` (numbered from `start`). */
  ghost predicate EdgesBack(lines: seq<Line>, start: nat, pid: nat) {
    forall i :: 0 <= i < |lines| ==>
      lines[i].Edge? && (lines[i].parentId == pid || start <= lines[i].parentId < start + i)
  }

  lemma NumberedAppend(a: seq<Line>, b: seq<Line>, start: nat, na: seq<TopicNode>, nb: seq<TopicNode>)
    requires Numbered(a, start, na) && Numbered(b, start + |a|, nb)
    ensures Numbered(a + b, start, na + nb)
  {
    var l, n := a + b, na + nb;
    forall i | 0 <= i < |l|
      ensures l[i].Declared() == start + i && l[i].caption == Sanitize(Label(n[i]))
    {
      if i >= |a| { assert l[i] == b[i - |a|] && n[i] == nb[i - |a|]; }
    }
  }

  lemma EdgesBackAppend(a: seq<Line>, b: seq<Line>, start: nat, pid: nat)
    requires EdgesBack(a, start, pid) && EdgesBack(b, start + |a|, pid)
    ensures EdgesBack(a + b, start, pid)
  {
    var l := a + b;
    forall i | 0 <= i < |l|
      ensures l[i].Edge? && (l[i].parentId == pid || start <= l[i].parentId < start + i)
    {
      if i >= |a| { assert l[i] == b[i - |a|]; }
    }
  }

  /** The lines of a subtree: one per node in pre-order, declaring consecutive
      numbers from `id` on, the first declaring the subtree's top node (standalone
      or under `parent`), every later one an edge from a node declared before it;
      the counter comes back advanced by the size of the subtree. */
  lemma {:induction false} RenderShape(node: TopicNode, parent: Option<nat>, id: nat)
    ensures var r := Render(node, parent, id);
      && Numbered(r.lines, id, Preorder(node))
      && r.next == id + |r.lines|
      && r.lines[0] == NodeLine(parent, id, Sanitize(Label(node)))
      && EdgesBack(r.lines[1..], id + 1, id)
    decreases node, 1
  {
    var r := Render(node, parent, id);
    var head := [NodeLine(parent, id, Sanitize(Label(node)))];
    var rest := RenderChildren(node, 0, id, id + 1);
    RenderChildrenShape(node, 0, id, id + 1);
    assert r.lines == head + rest.lines;
    assert Numbered(head, id, [node]);
    NumberedAppend(head, rest.lines, id, [node], PreorderFrom(node, 0));
    assert r.lines[1..] == rest.lines;
  }

  lemma {:induction false} RenderChildrenShape(node: TopicNode, k: nat, pid: nat, counter: nat)
    requires k <= |node.children|
    ensures var r := RenderChildren(node, k, pid, counter);
      && Numbered(r.lines, counter, PreorderFrom(node, k))
      && r.next == counter + |r.lines|
      && EdgesBack(r.lines, counter, pid)
    decreases node, 0, |node.children| - k
  {
    if k < |node.children| {
      var child := node.children[k];
      var first := Render(child, Some(pid), counter);
      RenderShape(child, Some(pid), counter);
      var rest := RenderChildren(node, k + 1, pid, first.next);
      RenderChildrenShape(node, k + 1, pid, first.next);
      NumberedAppend(first.lines, rest.lines, counter, Preorder(child), PreorderFrom(node, k + 1));
      assert EdgesBack(first.lines, counter, pid) by {
        forall i | 0 <= i < |first.lines|
          ensures first.lines[i].Edge? && (first.lines[i].parentId == pid || counter <= first.lines[i].parentId < counter + i)
        {
          if i > 0 { assert first.lines[i] == first.lines[1..][i - 1]; }
        }
      }
      EdgesBackAppend(first.lines, rest.lines, counter, pid);
    }
  }

  /** `json_to_mermaid(tree)`: the lines for a whole tree, numbered from 0. */
  function MermaidLines(tree: TopicNode): (r: seq<Line>)
    ensures |r| >= 1 && r[0] == RootDecl(0, Sanitize(Label(tree)))
  {
    Render(tree, None, 0).lines
  }

  /** One line per node. Line 0 is the only standalone declaration, of the top
      node; line `i` declares node `i`, the `i`-th node in pre-order, with its
      sanitised label; every later line is an edge from a node declared earlier. */
  lemma MermaidLinesShape(tree: TopicNode)
    ensures var lines := MermaidLines(tree);
      && |lines| == Size(tree)
      && lines[0] == RootDecl(0, Sanitize(Label(tree)))
      && (forall i :: 0 <= i < |lines| ==>
            lines[i].Declared() == i && lines[i].caption == Sanitize(Label(Preorder(tree)[i])))
      && (forall i :: 1 <= i < |lines| ==> lines[i].Edge? && lines[i].parentId < i)
  {
    var lines := MermaidLines(tree);
    RenderShape(tree, None, 0);
    forall i | 1 <= i < |lines| ensures lines[i].Edge? && lines[i].parentId < i {
      assert lines[i] == lines[1..][i - 1];
    }
  }

  /** A rendering has one line per node and advances the counter by as many. */
  lemma RenderSize(node: TopicNode, parent: Option<nat>, id: nat)
    ensures |Render(node, parent, id).lines| == Size(node)
    ensures Render(node, parent, id).next == id + Size(node)
  {
    RenderShape(node, parent, id);
  }

  /** Total size of the child subtrees `k` up to `j` (excluded). */
  function SizesBetween(node: TopicNode, k: nat, j: nat): nat
    requires k <= j <= |node.children|
    decreases j - k
  {
    if k == j then 0 else Size(node.children[k]) + SizesBetween(node, k + 1, j)
  }

  /** Where the lines of the `j`-th child's subtree start: after the node's own
      line and the subtrees of the children before it. */
  function ChildOffset(node: TopicNode, j: nat): nat
    requires j <= |node.children|
  {
    1 + SizesBetween(node, 0, j)
  }

  /** The subtree of the `j`-th child occupies a contiguous block of lines at its
      offset, and that block is the child's own rendering under the node,
      numbered from where the block starts. */
  lemma ChildBlock(node: TopicNode, parent: Option<nat>, id: nat, j: nat)
    requires j < |node.children|
    ensures var r := Render(node, parent, id);
      var off := ChildOffset(node, j);
      && off + Size(node.children[j]) <= |r.lines|
      && r.lines[off..off + Size(node.children[j])] == Render(node.children[j], Some(id), id + off).lines
  {
    var head := [NodeLine(parent, id, Sanitize(Label(node)))];
    var rest := RenderChildren(node, 0, id, id + 1);
    assert Render(node, parent, id).lines == head + rest.lines;
    ChildrenBlock(node, 0, j, id, id + 1);
    SliceAfter(head, rest.lines, SizesBetween(node, 0, j), Size(node.children[j]));
  }

  lemma {:induction false} SizesBetweenExtend(node: TopicNode, k: nat, j: nat)
    requires k <= j < |node.children|
    ensures SizesBetween(node, k, j + 1) == SizesBetween(node, k, j) + Size(node.children[j])
    decreases j - k
  {
    if k < j {
      SizesBetweenExtend(node, k + 1, j);
    }
  }

  /** Siblings follow each other in input order: the block of child `j + 1`
      starts right where the block of child `j` ends, and the first child's
      block right after the node's own line. */
  lemma SiblingBlocksAdjacent(node: TopicNode, j: nat)
    requires j < |node.children|
    ensures ChildOffset(node, 0) == 1
    ensures ChildOffset(node, j + 1) == ChildOffset(node, j) + Size(node.children[j])
  {
    SizesBetweenExtend(node, 0, j);
  }

  /** The loop's first round renders the `k`-th child; the rest follows it. */
  lemma RenderChildrenStep(node: TopicNode, k: nat, pid: nat, counter: nat)
    requires k < |node.children|
    ensures var first := Render(node.children[k], Some(pid), counter);
      RenderChildren(node, k, pid, counter).lines
        == first.lines + RenderChildren(node, k + 1, pid, first.next).lines
  {
  }

  lemma {:induction false} ChildrenBlock(node: TopicNode, k: nat, j: nat, pid: nat, counter: nat)
    requires k <= j < |node.children|
    ensures var r := RenderChildren(node, k, pid, counter);
      var o := SizesBetween(node, k, j);
      && o + Size(node.children[j]) <= |r.lines|
      && r.lines[o..o + Size(node.children[j])] == Render(node.children[j], Some(pid), counter + o).lines
    decreases j - k
  {
    var first := Render(node.children[k], Some(pid), counter);
    var rest := RenderChildren(node, k + 1, pid, first.next);
    RenderChildrenStep(node, k, pid, counter);
    RenderSize(node.children[k], Some(pid), counter);
    if k == j {
      SliceFront(first.lines, rest.lines);
    } else {
      ChildrenBlock(node, k + 1, j, pid, first.next);
      SliceAfter(first.lines, rest.lines, SizesBetween(node, k + 1, j), Size(node.children[j]));
    }
  }

  /** The fallback tree renders as one declaration and one edge. */
  lemma ErrorTreeRendering(t: TopicNode)
    requires t == ErrorTree
    ensures Render(t, None, 0) == Rendered([RootDecl(0, "Error Parsing JSON"), Edge(0, 1, "Raw Text")], 2)
  {
    OneLeafRendering(t, "Error Parsing JSON", "Raw Text");
  }

  /** A titled top node with one named leaf: one declaration, one edge. */
  lemma OneLeafRendering(t: TopicNode, title: string, leafName: string)
    requires t == TopicNode(None, Some(title), [TopicNode(Some(leafName), None, [])])
    requires '"' !in title && '"' !in leafName
    ensures Render(t, None, 0) == Rendered([RootDecl(0, title), Edge(0, 1, leafName)], 2)
  {
    var leaf := t.children[0];
    SanitizeClean(title);
    SanitizeClean(leafName);
    assert RenderChildren(leaf, 0, 1, 2) == Rendered([], 2);
    assert Render(leaf, Some(0), 1) == Rendered([Edge(0, 1, leafName)], 2);
    assert RenderChildren(t, 1, 0, 2) == Rendered([], 2);
    assert RenderChildren(t, 0, 0, 1) == Rendered([Edge(0, 1, leafName)], 2);
  }

  /** A top node with two leaf children: three lines, the children's edges in
      input order. */
  lemma TwoLeavesRendering(top: TopicNode, a: TopicNode, b: TopicNode)
    requires top.children == [a, b] && a.children == [] && b.children == []
    ensures MermaidLines(top) == [
      RootDecl(0, Sanitize(Label(top))),
      Edge(0, 1, Sanitize(Label(a))),
      Edge(0, 2, Sanitize(Label(b)))]
  {
    var ea, eb := Edge(0, 1, Sanitize(Label(a))), Edge(0, 2, Sanitize(Label(b)));
    assert RenderChildren(a, 0, 1, 2) == Rendered([], 2);
    assert Render(a, Some(0), 1) == Rendered([ea], 2);
    assert RenderChildren(b, 0, 2, 3) == Rendered([], 3);
    assert Render(b, Some(0), 2) == Rendered([eb], 3);
    assert RenderChildren(top, 2, 0, 3) == Rendered([], 3);
    assert RenderChildren(top, 1, 0, 2) == Rendered([eb], 3);
    assert RenderChildren(top, 0, 0, 1) == Rendered([ea, eb], 3);
  }

  /** `json_to_mermaid` as the source runs it: a list built by `append` and
      `extend`, a loop over the children threading the counter through the
      recursive calls. */
  method JsonToMermaid(node: TopicNode, parent: Option<nat>, nodeId: nat) returns (lines: seq<Line>, next: nat)
    ensures Rendered(lines, next) == Render(node, parent, nodeId)
    ensures |lines| == Size(node) && next == nodeId + Size(node)
    decreases node
  {
    lines := [NodeLine(parent, nodeId, Sanitize(Label(node)))];
    var childIdCounter: nat := nodeId + 1;
    var i := 0;
    while i < |node.children|
      invariant 0 <= i <= |node.children|
      invariant var rest := RenderChildren(node, i, nodeId, childIdCounter);
        Render(node, parent, nodeId) == Rendered(lines + rest.lines, rest.next)
    {
      var childLines, nextId := JsonToMermaid(node.children[i], Some(nodeId), childIdCounter);
      lines := lines + childLines;
      childIdCounter := nextId;
      i := i + 1;
    }
    next := childIdCounter;
    RenderShape(node, parent, nodeId);
  }

  // ===========================================================================
  // The graph text and the HTML document (save_mindmap_html)
  // ===========================================================================

  /** A line as text: `    node0["label"]` or `    node0 --> node1["label"]`. */
  function LineText(l: Line): (r: string)
    ensures "    node" <= r
    ensures |r| >= 2 && r[|r| - 2..] == "\"]"
  {
    match l
    case RootDecl(id, caption) => "    node" + NatToString(id) + "[\"" + caption + "\"]"
    case Edge(p, c, caption) => "    node" + NatToString(p) + " --> node" + NatToString(c) + "[\"" + caption + "\"]"
  }

  /** A label between `["` and `"]` after text without double quotes: two in all. */
  lemma QuotedLabelCount(prefix: string, caption: string)
    requires '"' !in prefix && '"' !in caption
    ensures CountChar(prefix + "[\"" + caption + "\"]", '"') == 2
  {
    var open, close := "[\"", "\"]";
    assert CountChar(open, '"') == 1;
    assert CountChar(close, '"') == 1;
    CountCharAbsent(prefix, '"');
    CountCharAbsent(caption, '"');
    CountCharAppend(prefix, open, '"');
    CountCharAppend(prefix + open, caption, '"');
    CountCharAppend(prefix + open + caption, close, '"');
  }

  /** A line whose label has no double quote holds exactly the two that delimit it. */
  lemma LineTextQuotes(l: Line)
    requires '"' !in l.caption
    ensures CountChar(LineText(l), '"') == 2
  {
    match l
    case RootDecl(id, caption) =>
      var n := NatToString(id);
      assert '"' !in n;
      QuotedLabelCount("    node" + n, caption);
    case Edge(p, c, caption) =>
      var np, nc := NatToString(p), NatToString(c);
      assert '"' !in np && '"' !in nc;
      QuotedLabelCount("    node" + np + " --> node" + nc, caption);
  }

  /** Every rendered line holds exactly two double quotes, so no label string is
      left unterminated. */
  lemma RenderedLinesBalanced(tree: TopicNode, i: nat)
    requires i < |MermaidLines(tree)|
    ensures CountChar(LineText(MermaidLines(tree)[i]), '"') == 2
  {
    MermaidLinesShape(tree);
    LineTextQuotes(MermaidLines(tree)[i]);
  }

  function LineTexts(lines: seq<Line>): (r: seq<string>)
    ensures |r| == |lines| && forall i :: 0 <= i < |lines| ==> r[i] == LineText(lines[i])
  {
    seq(|lines|, i requires 0 <= i < |lines| => LineText(lines[i]))
  }

  /** `"graph TD\n" + "\n".join(mermaid_lines)` */
  function MermaidGraph(lines: seq<Line>): (r: string)
    ensures "graph TD\n" <= r
  {
    "graph TD\n" + Join("\n", LineTexts(lines))
  }

  const HtmlPreamble: string :=
    "\n    <!DOCTYPE html>\n    <html>\n    <body>\n        <h2>Mind Map Visualization</h2>\n        "
  /** Opening and closing tags of the block that the Mermaid script renders. */
  const MermaidOpen: string := "<pre class=\"mermaid\">"
  const MermaidClose: string := "</pre>"
  const HtmlScript: string :=
    "\n        <script type=\"module\">\n"
    + "            import mermaid from 'https://cdn.jsdelivr.net/npm/mermaid@10/dist/mermaid.esm.min.mjs';\n"
    + "            mermaid.initialize({ startOnLoad: true });\n"
    + "        </script>\n    </body>\n    </html>\n    "

  /** What comes before and after the graph text in the document. */
  const HtmlHead: string := HtmlPreamble + MermaidOpen + "\n"
  const HtmlTail: string := "\n        " + MermaidClose + HtmlScript

  /** The HTML document `save_mindmap_html` writes for a graph text. */
  function MindmapHtml(graph: string): (r: string)
    ensures HtmlHead <= r && Contains(r, graph)
  {
    ContainsMiddle(HtmlHead, graph, HtmlTail);
    HtmlHead + graph + HtmlTail
  }

  /** `save_mindmap_html(mindmap_json)` without the file write: the document text. */
  method SaveMindmapHtml(tree: TopicNode) returns (html: string)
    ensures html == MindmapHtml(MermaidGraph(MermaidLines(tree)))
  {
    var mermaidLines, _ := JsonToMermaid(tree, None, 0);
    var mermaidGraph := MermaidGraph(mermaidLines);
    html := MindmapHtml(mermaidGraph);
  }

  lemma {:induction false} JoinContainsPart(sep: string, parts: seq<string>, i: nat)
    requires i < |parts|
    ensures Contains(Join(sep, parts), parts[i])
    decreases |parts|
  {
    if |parts| == 1 {
      ContainsSelf(parts[0]);
    } else if i == 0 {
      ContainsSelf(parts[0]);
      ContainsAppendRight(parts[0], sep + Join(sep, parts[1..]), parts[0]);
      assert parts[0] + sep + Join(sep, parts[1..]) == parts[0] + (sep + Join(sep, parts[1..]));
    } else {
      JoinContainsPart(sep, parts[1..], i - 1);
      ContainsAppendLeft(parts[0] + sep, Join(sep, parts[1..]), parts[i]);
    }
  }

  /** The graph text sits between the opening and closing tags of the Mermaid
      block. */
  lemma GraphInsideMermaidBlock(graph: string)
    ensures Contains(MindmapHtml(graph), MermaidOpen + "\n" + graph + "\n        " + MermaidClose)
  {
    var nl, indent := "\n", "\n        ";
    Regroup(HtmlPreamble, MermaidOpen, nl, graph, indent, MermaidClose, HtmlScript);
    ContainsMiddle(HtmlPreamble, MermaidOpen + nl + graph + indent + MermaidClose, HtmlScript);
  }

  /** Regrouping the seven pieces of the document so that the Mermaid block is
      one piece. Stated over plain variables: asserting it directly over the
      template constants makes the solver expand their text. */
  lemma Regroup(a: string, b: string, c: string, d: string, e: string, f: string, g: string)
    ensures (a + b + c) + d + (e + f + g) == a + (b + c + d + e + f) + g
  {
  }

  /** The sanitised label of every node of the tree appears in the document. */
  lemma LabelsInDocument(tree: TopicNode, n: nat)
    requires n < Size(tree)
    ensures Contains(MindmapHtml(MermaidGraph(MermaidLines(tree))), Sanitize(Label(Preorder(tree)[n])))
  {
    var lines := MermaidLines(tree);
    MermaidLinesShape(tree);
    var caption := Sanitize(Label(Preorder(tree)[n]));
    var l := lines[n];
    assert l.caption == caption;
    var text := LineText(l);
    assert Contains(text, caption) by {
      match l
      case RootDecl(id, _) =>
        ContainsMiddle("    node" + NatToString(id) + "[\"", caption, "\"]");
      case Edge(p, c, _) =>
        ContainsMiddle("    node" + NatToString(p) + " --> node" + NatToString(c) + "[\"", caption, "\"]");
    }
    var texts := LineTexts(lines);
    JoinContainsPart("\n", texts, n);
    ContainsWithin(Join("\n", texts), text, caption);
    var graph := MermaidGraph(lines);
    ContainsAppendLeft("graph TD\n", Join("\n", texts), caption);
    assert graph == "graph TD\n" + Join("\n", texts);
    var html := MindmapHtml(graph);
    ContainsMiddle(HtmlHead, graph, HtmlTail);
    ContainsWithin(html, graph, caption);
  }

  /** A node with two leaf children lists itself, then the two children. */
  lemma PreorderOfTwoLeaves(top: TopicNode)
    requires |top.children| == 2 && top.children[0].children == [] && top.children[1].children == []
    ensures Preorder(top) == [top, top.children[0], top.children[1]]
  {
    var a, b := top.children[0], top.children[1];
    assert Preorder(a) == [a] by { assert PreorderFrom(a, 0) == []; }
    assert Preorder(b) == [b] by { assert PreorderFrom(b, 0) == []; }
    assert PreorderFrom(top, 1) == [b] by { assert PreorderFrom(top, 2) == []; }
    assert PreorderFrom(top, 0) == [a, b];
  }

  /** A titled top node with two named leaves, none of the three labels holding
      a double quote: the document mentions `mermaid` and every label as given. */
  lemma TwoLeavesDocument(top: TopicNode, title: string, first: string, second: string)
    requires top == TopicNode(None, Some(title),
                              [TopicNode(Some(first), None, []), TopicNode(Some(second), None, [])])
    requires '"' !in title && '"' !in first && '"' !in second
    ensures var html := MindmapHtml(MermaidGraph(MermaidLines(top)));
      Contains(html, "mermaid") && Contains(html, title) && Contains(html, first) && Contains(html, second)
  {
    PreorderOfTwoLeaves(top);
    LabelsInDocument(top, 0);
    LabelsInDocument(top, 1);
    LabelsInDocument(top, 2);
    SanitizeClean(title);
    SanitizeClean(first);
    SanitizeClean(second);
    var graph := MermaidGraph(MermaidLines(top));
    GraphInsideMermaidBlock(graph);
    ContainsMermaidWord(MermaidOpen + "\n" + graph + "\n        " + MermaidClose);
    ContainsWithin(MindmapHtml(graph), MermaidOpen + "\n" + graph + "\n        " + MermaidClose, "mermaid");
  }

  /** The opening tag names the Mermaid block. */
  lemma ContainsMermaidWord(s: string)
    requires MermaidOpen <= s
    ensures Contains(s, "mermaid")
  {
    var w := "mermaid";
    assert MermaidOpen == "<pre class=\"" + w + "\">";
    ContainsMiddle("<pre class=\"", w, "\">");
    PrefixContains(s, MermaidOpen, w);
  }
}
