/*
 * The AST-construction log of src/ast.c and src/ast.h. The parser appends
 * log entries (new, capture, tag, replace, swap, push, pop, link); a
 * transaction is a log size to roll back to, and a commit turns the entries
 * from a point on into one node linked back into the log. Positions are
 * offsets into the source; tags, replacement strings and labels are
 * identity numbers. Reference counting (NODE_GC_*) is not modelled.
 */
module Ast {
  import opened Config
  import KArray
  import opened Node

  const Word32: nat := 0x1_0000_0000

  /** AstLogType. */
  datatype LogType = Tag | Pop | Replace | Push | LeftFold | New | Link | Capture

  /**
   * AstLog: its type, the shift to the entry that ends a pushed group, the
   * entry union (a label value, or a node), and the index union (a
   * position, a tag, or a label).
   */
  datatype AstLog = AstLog(kind: LogType, shift: int, val: nat, ref: Node?, index: nat)

  ghost predicate ShiftsOk(log: seq<AstLog>)
  {
    forall k :: 0 <= k < |log| ==> log[k].shift >= 0
  }

  /** The nodes the log refers to. */
  ghost function NodesIn(log: seq<AstLog>): set<object>
  {
    set k | 0 <= k < |log| && log[k].ref != null :: log[k].ref as object
  }

  /**
   * The nodes of the Link entries constructLeft visits from i to end, in
   * order: a Link makes it jump over its shift, every other entry is
   * stepped over.
   */
  function LinkedNodes(log: seq<AstLog>, i: nat, end: nat): seq<Node?>
    requires end <= |log| && ShiftsOk(log)
    decreases end - i
  {
    if i >= end then []
    else if log[i].kind == Link then [log[i].ref] + LinkedNodes(log, i + log[i].shift as nat + 1, end)
    else LinkedNodes(log, i + 1, end)
  }

  /** No push, pop or swap from i on: one node with no nesting. */
  ghost predicate Flat(log: seq<AstLog>, i: nat)
  {
    forall k :: i <= k < |log| ==> log[k].kind != Push && log[k].kind != Pop && log[k].kind != LeftFold
  }

  /** The variables of ast_create_node's walk. */
  datatype Walker = Walker(head: nat, spos: nat, epos: nat, tag: nat, value: nat, objSize: nat)

  /** The walker ast_create_node starts from at cur. */
  function StartAt(log: seq<AstLog>, cur: nat): Walker
  {
    var p := if cur < |log| then log[cur].index else 0;
    Walker(cur, p, p, 0, 0, 0)
  }

  /**
   * The walker after entry e at index i, for the entries that neither
   * build a node nor nest: a new restarts the node at i, a capture sets
   * its end, a tag and a replace set its tag and value, and a link counts
   * one child.
   */
  function Advance(w: Walker, e: AstLog, i: nat): (r: Walker)
    ensures e.kind == Link ==> r == w.(objSize := w.objSize + 1)
    ensures e.kind == New ==> r.objSize == 0 && r.head == i && r.spos == e.index
    ensures e.kind != New && e.kind != Link ==> r.objSize == w.objSize && r.head == w.head
  {
    match e.kind
    case New => Walker(i, e.index, e.index, 0, 0, 0)
    case Capture => w.(epos := e.index)
    case Tag => w.(tag := e.index)
    case Replace => w.(value := e.index)
    case Link => w.(objSize := w.objSize + 1)
    case _ => w
  }

  /** The entry after e at i: a Link jumps over its shift. */
  function NextIndex(e: AstLog, i: nat): (r: nat)
    requires e.shift >= 0
    ensures r > i
  {
    if e.kind == Link then i + e.shift as nat + 1 else i + 1
  }

  /** What ast_create_node's walk leaves over a flat log. */
  ghost function Walk(log: seq<AstLog>, i: nat, w: Walker): Walker
    requires ShiftsOk(log)
    decreases |log| - i
  {
    if i >= |log| then w
    else if log[i].kind in {Push, Pop, LeftFold} then w
    else Walk(log, NextIndex(log[i], i), Advance(w, log[i], i))
  }

  /**
   * The walk counts exactly the links constructLeft visits from the
   * walker's head: one child per Link entry after the last new.
   */
  lemma {:induction false} WalkCountsLinks(log: seq<AstLog>, i: nat, w: Walker)
    requires ShiftsOk(log) && Flat(log, i) && w.head <= i
    requires w.objSize <= |LinkedNodes(log, w.head, |log|)|
    requires LinkedNodes(log, w.head, |log|) == LinkedNodes(log, w.head, |log|)[..w.objSize] + LinkedNodes(log, i, |log|)
    ensures Walk(log, i, w).objSize == |LinkedNodes(log, Walk(log, i, w).head, |log|)|
    decreases |log| - i
  {
    if i >= |log| {
      assert LinkedNodes(log, w.head, |log|)[..w.objSize] == LinkedNodes(log, w.head, |log|);
    } else {
      var e := log[i];
      var next := NextIndex(e, i);
      var w' := Advance(w, e, i);
      var all := LinkedNodes(log, w.head, |log|);
      if e.kind == New {
        WalkCountsLinks(log, next, w');
      } else if e.kind == Link {
        assert LinkedNodes(log, i, |log|) == [e.ref] + LinkedNodes(log, next, |log|);
        assert all[..w.objSize + 1] == all[..w.objSize] + [e.ref];
        if next < |log| {
          WalkCountsLinks(log, next, w');
        } else {
          assert all == all[..w.objSize + 1];
        }
      } else {
        WalkCountsLinks(log, next, w');
      }
    }
  }

  /** The walk from cur counts the links after the new it ends on. */
  lemma WalkFromStart(log: seq<AstLog>, cur: nat)
    requires ShiftsOk(log) && Flat(log, cur)
    ensures Walk(log, cur, StartAt(log, cur)).objSize == |LinkedNodes(log, Walk(log, cur, StartAt(log, cur)).head, |log|)|
  {
    WalkCountsLinks(log, cur, StartAt(log, cur));
  }

  /** A Link step of constructLeft's walk, after the nodes kids already linked, links one more. */
  lemma LinkStep(log: seq<AstLog>, cur: nat, i: nat, end: nat, kids: seq<Node?>, next: nat)
    requires end <= |log| && ShiftsOk(log) && i < end && log[i].kind == Link
    requires next == i + log[i].shift as nat + 1
    requires LinkedNodes(log, cur, end) == kids + LinkedNodes(log, i, end)
    ensures LinkedNodes(log, cur, end) == (kids + [log[i].ref]) + LinkedNodes(log, next, end)
  {
    assert kids + ([log[i].ref] + LinkedNodes(log, next, end)) == (kids + [log[i].ref]) + LinkedNodes(log, next, end);
  }

  /** Any other step of constructLeft's walk links nothing. */
  lemma SkipStep(log: seq<AstLog>, cur: nat, i: nat, end: nat, kids: seq<Node?>)
    requires end <= |log| && ShiftsOk(log) && i < end && log[i].kind != Link
    requires LinkedNodes(log, cur, end) == kids + LinkedNodes(log, i, end)
    ensures LinkedNodes(log, cur, end) == kids + LinkedNodes(log, i + 1, end)
  {
  }

  lemma InNodes(log: seq<AstLog>, k: nat)
    requires k < |log| && log[k].ref != null
    ensures log[k].ref in NodesIn(log)
  {
  }

  /** The machine and its log are not among the nodes a log refers to. */
  lemma NotANode(s: seq<AstLog>, m: object, a: KArray.Array<AstLog>)
    requires m is AstMachine
    ensures m !in NodesIn(s) && a !in NodesIn(s) && a.list !in NodesIn(s)
  {
  }

  /** Nor are they among the objects holding a node's children. */
  lemma NotInStore(r: Node, m: object, a: KArray.Array<AstLog>)
    requires m is AstMachine
    ensures m !in r.Store() && a !in r.Store() && a.list !in r.Store()
  {
  }

  /** Rewriting one entry adds at most that entry's node to the nodes of the log. */
  lemma NodesInUpdate(s: seq<AstLog>, k: nat, e: AstLog)
    requires k < |s|
    ensures forall o :: o in NodesIn(s[k := e]) ==> o in NodesIn(s) || o == e.ref
  {
    forall o | o in NodesIn(s[k := e])
      ensures o in NodesIn(s) || o == e.ref
    {
      var j :| 0 <= j < |s| && s[k := e][j].ref != null && s[k := e][j].ref as object == o;
      if j != k {
        InNodes(s, j);
      }
    }
  }

  /** Padding a prefix of children and then setting the next one is padding the longer prefix. */
  lemma PaddedStep(s: seq<Node?>, k: nat, x: Node)
    ensures Padded(Padded(s, k), |s| + 1)[|s| := x] == Padded(s + [x], k)
  {
    var a := Padded(Padded(s, k), |s| + 1)[|s| := x];
    var b := Padded(s + [x], k);
    assert |a| == |b|;
    forall j | 0 <= j < |a|
      ensures a[j] == b[j]
    {
      if j < |s| {
        assert Padded(s, k)[..|s|] == s;
        assert Padded(s + [x], k)[..|s| + 1] == s + [x];
      } else if j > |s| {
        assert b[j] == null;
      } else {
        assert Padded(s + [x], k)[..|s| + 1] == s + [x];
      }
    }
  }

  /** constructLeft's Node_set of one more child, labelled labelId, after the children kids. */
  method LinkChild(r: Node, n: nat, ghost kids: seq<Node?>, objSize: nat, labelId: int, child: Node)
    requires r.Valid() && child != r && n == |kids| && 0 <= labelId < 0x1_0000
    requires null !in kids ==> r.Children() == Padded(kids, objSize)
    modifies r, r.Store(), child
    ensures r.Valid() && child.labelId == labelId
    ensures null !in kids ==> r.Children() == Padded(kids + [child], objSize)
    ensures forall o :: o in r.Store() ==> o in old(r.Store()) || fresh(o)
    ensures r.tag == old(r.tag) && r.pos == old(r.pos) && r.len == old(r.len) && r.value == old(r.value)
  {
    PaddedStep(kids, objSize, child);
    r.Set(n, labelId, child);
  }

  /**
   * n is the node ast_create_node builds from cur over a flat log: the
   * tag, value and span the walk leaves, and the nodes of the Link entries
   * after the last new as its children.
   */
  ghost predicate Builds(n: Node, log: seq<AstLog>, cur: nat, source: nat)
    reads n, n.Store()
    requires ShiftsOk(log)
  {
    var w := Walk(log, cur, StartAt(log, cur));
    var kids := LinkedNodes(log, w.head, |log|);
    n.Valid() && n.tag == w.tag && n.pos == source + w.spos && n.len == (w.epos - w.spos) % Word32 &&
    n.value == w.value && (null !in kids ==> n.Children() == kids)
  }

  /**
   * No Link entry constructLeft visits at the end of a flat walk from cur
   * holds a null node: the assertion `child != NULL` of constructLeft
   * holds.
   */
  ghost predicate NoNullChild(log: seq<AstLog>, cur: nat)
    requires ShiftsOk(log)
  {
    null !in LinkedNodes(log, Walk(log, cur, StartAt(log, cur)).head, |log|)
  }

  /** What constructLeft promises about the node at the end of a flat walk is Builds. */
  lemma BuildsAtEnd(n: Node, log: seq<AstLog>, cur: nat, source: nat, w: Walker)
    requires ShiftsOk(log) && Flat(log, cur) && Walk(log, cur, StartAt(log, cur)) == w && n.Valid()
    requires n.tag == w.tag && n.pos == source + w.spos && n.len == (w.epos - w.spos) % Word32 && n.value == w.value
    requires w.objSize == 0 ==> n.Children() == []
    requires var kids := LinkedNodes(log, w.head, |log|);
      w.objSize != 0 && null !in kids ==> n.Children() == Padded(kids, w.objSize)
    ensures Builds(n, log, cur, source)
  {
    WalkFromStart(log, cur);
  }

  /** The index of the first New entry of the log, or -1 when there is none. */
  function FirstNew(log: seq<AstLog>): (k: int)
    ensures -1 <= k < |log|
    ensures k >= 0 ==> log[k].kind == New && forall j :: 0 <= j < k ==> log[j].kind != New
    ensures k < 0 ==> forall j :: 0 <= j < |log| ==> log[j].kind != New
  {
    if |log| == 0 then -1
    else if log[0].kind == New then 0
    else var k := FirstNew(log[1..]); if k < 0 then -1 else k + 1
  }

  /** struct AstMachine: the log, the last linked node, the cached result and the source. */
  class AstMachine {
    const logs: KArray.Array<AstLog>
    var lastLinked: Node?
    var parsed: Node?
    var source: nat

    ghost predicate Valid()
      reads this, logs, logs.list
    {
      logs.Valid() && ShiftsOk(logs.Contents())
    }

    ghost function Contents(): seq<AstLog>
      reads this, logs, logs.list
      requires Valid()
    {
      logs.Contents()
    }

    /** AstMachine_init: an empty log with room for log_size entries; nothing linked or parsed. */
    constructor Init(logSize: nat, source: nat)
      ensures Valid() && fresh(logs) && fresh(logs.list)
      ensures Contents() == [] && lastLinked == null && parsed == null && this.source == source
      ensures logSize <= logs.capacity
    {
      var a := new KArray.Array<AstLog>.Init(logSize, AstLog(New, 0, 0, null, 0));
      a.EnsureSize(logSize);
      logs := a;
      lastLinked := null;
      parsed := null;
      this.source := source;
    }

    /** ast_save_tx: the current log size. */
    function SaveTx(): (r: nat)
      reads this, logs, logs.list
      requires Valid()
      ensures r == |Contents()|
    {
      logs.size
    }

    /** ast_log: append one entry with shift 0. */
    method Log(kind: LogType, pos: nat, val: nat, ref: Node?)
      requires Valid()
      modifies logs, logs.list
      ensures Valid() && Contents() == old(Contents()) + [AstLog(kind, 0, val, ref, pos)]
      ensures logs.list == old(logs.list) || fresh(logs.list)
    {
      logs.Add(AstLog(kind, 0, val, ref, pos));
    }

    /** ast_log_new. */
    method LogNew(pos: nat)
      requires Valid()
      modifies logs, logs.list
      ensures Valid() && Contents() == old(Contents()) + [AstLog(New, 0, 0, null, pos)]
      ensures logs.list == old(logs.list) || fresh(logs.list)
    {
      Log(New, pos, 0, null);
    }

    /** ast_log_capture. */
    method LogCapture(pos: nat)
      requires Valid()
      modifies logs, logs.list
      ensures Valid() && Contents() == old(Contents()) + [AstLog(Capture, 0, 0, null, pos)]
      ensures logs.list == old(logs.list) || fresh(logs.list)
    {
      Log(Capture, pos, 0, null);
    }

    /** ast_log_tag. */
    method LogTag(tag: nat)
      requires Valid()
      modifies logs, logs.list
      ensures Valid() && Contents() == old(Contents()) + [AstLog(Tag, 0, 0, null, tag)]
      ensures logs.list == old(logs.list) || fresh(logs.list)
    {
      Log(Tag, tag, 0, null);
    }

    /** ast_log_replace. */
    method LogReplace(str: nat)
      requires Valid()
      modifies logs, logs.list
      ensures Valid() && Contents() == old(Contents()) + [AstLog(Replace, 0, 0, null, str)]
      ensures logs.list == old(logs.list) || fresh(logs.list)
    {
      Log(Replace, str, 0, null);
    }

    /** ast_log_swap: a left fold at pos, labelled labelId. */
    method LogSwap(pos: nat, labelId: nat)
      requires Valid() && labelId < 0x1_0000
      modifies logs, logs.list
      ensures Valid() && Contents() == old(Contents()) + [AstLog(LeftFold, 0, labelId, null, pos)]
      ensures logs.list == old(logs.list) || fresh(logs.list)
    {
      Log(LeftFold, pos, labelId, null);
    }

    /** ast_log_push. */
    method LogPush()
      requires Valid()
      modifies logs, logs.list
      ensures Valid() && Contents() == old(Contents()) + [AstLog(Push, 0, 0, null, 0)]
      ensures logs.list == old(logs.list) || fresh(logs.list)
    {
      Log(Push, 0, 0, null);
    }

    /** ast_log_pop: close a pushed group, labelled labelId. */
    method LogPop(labelId: nat)
      requires Valid() && labelId < 0x1_0000
      modifies logs, logs.list
      ensures Valid() && Contents() == old(Contents()) + [AstLog(Pop, 0, 0, null, labelId)]
      ensures logs.list == old(logs.list) || fresh(logs.list)
    {
      Log(Pop, labelId, 0, null);
    }

    /** ast_log_link: log the node under labelId; it becomes the last linked node. */
    method LogLink(labelId: nat, node: Node?)
      requires Valid() && labelId < 0x1_0000
      modifies this, logs, logs.list
      ensures Valid() && Contents() == old(Contents()) + [AstLog(Link, 0, 0, node, labelId)]
      ensures logs.list == old(logs.list) || fresh(logs.list)
      ensures lastLinked == node && parsed == old(parsed) && source == old(source)
    {
      Log(Link, labelId, 0, node);
      lastLinked := node;
    }

    /**
     * ast_rollback_tx: release the nodes linked after tx and drop those
     * entries.
     */
    method RollbackTx(tx: nat)
      requires Valid() && tx <= |Contents()|
      modifies logs, logs.list
      ensures Valid() && Contents() == old(Contents())[..tx] && logs.list == old(logs.list)
    {
      var len := logs.size;
      if tx < len {
        var i := tx;
        while i < len
          invariant tx <= i <= len && logs.Valid() && logs.size == len && logs.list == old(logs.list)
          invariant logs.list[..tx] == old(logs.list[..tx])
        {
          if logs.list[i].kind == Link {
            if logs.list[i].ref != null {
              logs.list[i] := logs.list[i].(ref := null);
            }
          }
          i := i + 1;
        }
      }
      logs.size := tx;
      assert Contents() == old(logs.list[..tx]);
    }

    /**
     * constructLeft: a node spanning [spos, epos) with the given tag,
     * value and objSize children; unless objSize is 0, the nodes of the
     * Link entries from cur to end become its children in order. ok is
     * false exactly when one of them holds a null node, where the source
     * stops on `assert(child != NULL)`.
     */
    method ConstructLeft(cur: nat, end: nat, spos: nat, epos: nat, objSize: nat, tag: nat, value: nat)
      returns (r: Node, ok: bool)
      requires Valid() && end <= |Contents()|
      modifies NodesIn(Contents())
      ensures ok <==> objSize == 0 || null !in LinkedNodes(Contents(), cur, end)
      ensures fresh(r) && fresh(r.Store()) && r.Valid()
      ensures r.tag == tag && r.pos == source + spos && r.len == (epos - spos) % Word32 && r.value == value
      ensures objSize == 0 ==> r.Children() == []
      ensures var kids := LinkedNodes(Contents(), cur, end);
        objSize != 0 && null !in kids ==> r.Children() == Padded(kids, objSize)
    {
      NotANode(Contents(), this, logs);
      r := new Node.New(tag, source + spos, (epos - spos) % Word32, objSize, value);
      ok := true;
      if objSize != 0 {
        assert r.Children() == Padded([], objSize);
        ok := LinkAll(r, cur, end, objSize);
      }
    }

    /**
     * constructLeft's loop: Node_set each linked node in turn, from child
     * 0; ok is false exactly when a Link holds a null node.
     */
    method LinkAll(r: Node, cur: nat, end: nat, objSize: nat) returns (ok: bool)
      requires Valid() && end <= |Contents()| && r.Valid() && r !in NodesIn(Contents())
      requires r.Children() == Padded([], objSize)
      modifies r, r.Store(), NodesIn(Contents())
      ensures ok <==> null !in LinkedNodes(Contents(), cur, end)
      ensures r.Valid() && forall o :: o in r.Store() ==> o in old(r.Store()) || fresh(o)
      ensures r.tag == old(r.tag) && r.pos == old(r.pos) && r.len == old(r.len) && r.value == old(r.value)
      ensures var kids := LinkedNodes(Contents(), cur, end);
        null !in kids ==> r.Children() == Padded(kids, objSize)
    {
      ghost var log := Contents();
      NotANode(log, this, logs);
      NotInStore(r, this, logs);
      var n := 0;
      var i := cur;
      ok := true;
      ghost var kids: seq<Node?> := [];
      while i < end
        invariant r.Valid() && forall o :: o in r.Store() ==> o in old(r.Store()) || fresh(o)
        invariant r.tag == old(r.tag) && r.pos == old(r.pos) && r.len == old(r.len) && r.value == old(r.value)
        invariant LinkedNodes(log, cur, end) == kids + LinkedNodes(log, i, end)
        invariant n == |kids| && (ok <==> null !in kids)
        invariant null !in kids ==> r.Children() == Padded(kids, objSize)
        decreases end - i
      {
        var e := logs.list[i];
        assert e == log[i];
        if e.kind == Link {
          var labelId := e.index % 0x1_0000;
          var child := e.ref;
          var next := i + e.shift as nat + 1;
          LinkStep(log, cur, i, end, kids, next);
          if child != null {
            InNodes(log, i);
            NotInStore(r, this, logs);
            LinkChild(r, n, kids, objSize, labelId, child);
          } else {
            ok := false;
          }
          n := n + 1;
          kids := kids + [child];
          i := next;
        } else {
          SkipStep(log, cur, i, end, kids);
          i := i + 1;
        }
      }
      assert LinkedNodes(log, i, end) == [];
    }

    /**
     * The left-fold case of ast_create_node: the node built so far from the
     * walker's head up to entry i, which becomes a Link to it labelled with
     * the swap's label; the walk goes on with that one child.
     */
    method FoldLeft(i: nat, w: Walker) returns (tmp: Node, w': Walker, ok: bool)
      requires Valid() && i < |Contents()| && Contents()[i].kind == LeftFold
      modifies logs.list, NodesIn(Contents())
      ensures ok <==> w.objSize == 0 || null !in LinkedNodes(old(Contents()), w.head, i + 1)
      ensures Valid() && fresh(tmp)
      ensures var e := old(Contents())[i];
        Contents() == old(Contents())[i := e.(kind := Link, ref := tmp, index := e.val)] &&
        w' == Walker(i, e.index, w.epos, 0, 0, 1)
      ensures forall o :: o in NodesIn(Contents()) ==> o in old(NodesIn(Contents())) || o == tmp
    {
      var e := logs.list[i];
      NotANode(Contents(), this, logs);
      tmp, ok := ConstructLeft(w.head, i + 1, w.spos, w.epos, w.objSize, w.tag, w.value);
      var f := e.(kind := Link, ref := tmp, index := e.val);
      NodesInUpdate(Contents(), i, f);
      logs.Set(i, f);
      w' := Walker(i, e.index, w.epos, 0, 0, 1);
    }

    /**
     * The pop case of ast_create_node: the node of the group, which the
     * push entry at pushed (if any) now links, labelled with the pop's label
     * and shifted to the pop. ok is false exactly when there is no push
     * entry, where the source stops on `assert(pushed != NULL)`, or when
     * constructLeft stops on a null child.
     */
    method ClosePush(i: nat, pushed: int, w: Walker) returns (r: Node, ok: bool)
      requires Valid() && i < |Contents()| && pushed < i
      modifies logs.list, NodesIn(Contents())
      ensures ok <==> pushed >= 0 && (w.objSize == 0 || null !in LinkedNodes(old(Contents()), w.head, i + 1))
      ensures Valid() && fresh(r) && fresh(r.Store()) && r.Valid()
      ensures pushed >= 0 ==> Contents() == old(Contents())[pushed :=
        old(Contents())[pushed].(kind := Link, shift := i - pushed, ref := r, index := old(Contents())[i].index)]
      ensures pushed < 0 ==> Contents() == old(Contents())
      ensures forall o :: o in NodesIn(Contents()) ==> o in old(NodesIn(Contents())) || o == r
    {
      NotANode(Contents(), this, logs);
      var built;
      r, built := ConstructLeft(w.head, i + 1, w.spos, w.epos, w.objSize, w.tag, w.value);
      ok := pushed >= 0 && built;
      if pushed >= 0 {
        var p := logs.list[pushed].(kind := Link, shift := i - pushed, ref := r, index := logs.list[i].index);
        NodesInUpdate(Contents(), pushed, p);
        logs.Set(pushed, p);
      }
    }

    /**
     * The push case of ast_create_node: build the group after entry i, then
     * go on after the entry its shift reaches (the pop, once the group has
     * rewritten the push into a Link). ok is false exactly when the nested
     * call stopped (innerOk false) or left entry i other than a Link, where
     * the source stops on `assert(GetTag(cur) == TypeLink)`.
     */
    method Nest(i: nat) returns (next: nat, ok: bool, ghost innerOk: bool)
      requires Valid() && i < |Contents()|
      modifies logs.list, NodesIn(Contents())
      decreases |Contents()| - i, 0
      ensures Valid() && next > i
      ensures ok <==> innerOk && Contents()[i].kind == Link
      ensures forall k :: 0 <= k < i ==> Contents()[k] == old(Contents())[k]
      ensures forall o :: o in NodesIn(Contents()) ==> o in old(NodesIn(Contents())) || fresh(o)
    {
      NotANode(Contents(), this, logs);
      var _, inner, _ := CreateNode(i + 1, i);
      innerOk := inner;
      ok := inner && logs.list[i].kind == Link;
      next := i + logs.list[i].shift as nat + 1;
    }

    /**
     * One turn of ast_create_node's loop at entry i: the next entry to
     * visit and the walker after it, or, at a pop, the node that ends the
     * group. ok is false exactly when an assertion of that turn stops the
     * source.
     */
    method Step(cur0: nat, i: nat, pushed: int, w: Walker) returns (next: nat, w': Walker, r: Node?, ok: bool, ghost popAt: int)
      requires Valid() && cur0 <= w.head <= i < |Contents()| && pushed < cur0
      modifies logs.list, NodesIn(Contents())
      decreases |Contents()| - cur0, 1
      ensures Valid() && next > i && cur0 <= w'.head <= next
      ensures forall o :: o in NodesIn(Contents()) ==> o in old(NodesIn(Contents())) || fresh(o)
      ensures forall k :: 0 <= k < cur0 && k != pushed ==> Contents()[k] == old(Contents())[k]
      ensures r == null ==> forall k :: 0 <= k < cur0 ==> Contents()[k] == old(Contents())[k]
      ensures r != null ==> fresh(r) && fresh(r.Store()) && r.Valid() && old(Contents())[i].kind == Pop
      ensures r != null && popAt >= 0 ==> (popAt == i && 0 <= pushed && Contents()[i].kind == Pop &&
        Contents()[pushed] == AstLog(Link, i - pushed, old(Contents())[pushed].val, r, Contents()[i].index))
      ensures old(Contents())[i].kind in {LeftFold, Pop} ==>
        (ok <==> (old(Contents())[i].kind == Pop ==> pushed >= 0) &&
                 (w.objSize == 0 || null !in LinkedNodes(old(Contents()), w.head, i + 1)))
      ensures old(Contents())[i].kind == Push && Contents()[i].kind != Link ==> !ok
      ensures old(Contents())[i].kind !in {LeftFold, Pop, Push} ==> ok
      ensures Flat(old(Contents()), i) ==>
        r == null && ok && Contents() == old(Contents()) && Walk(old(Contents()), i, w) == Walk(old(Contents()), next, w')
    {
      var e := logs.list[i];
      assert e == Contents()[i];
      NotANode(Contents(), this, logs);
      next, w', r, ok, popAt := i + 1, w, null, true, -1;
      if e.kind == LeftFold {
        var _, w2, built := FoldLeft(i, w);
        w', ok := w2, built;
      } else if e.kind == Pop {
        var done, closed := ClosePush(i, pushed, w);
        r, ok := done, closed;
        if pushed >= 0 {
          popAt := i;
        }
      } else if e.kind == Push {
        var after, nested, _ := Nest(i);
        next, ok := after, nested;
        w' := w.(objSize := w.objSize + 1);
      } else {
        w' := Advance(w, e, i);
        next := NextIndex(e, i);
      }
    }

    /**
     * ast_create_node(cur, pushed), with pushed < 0 for NULL: walk the log
     * from cur. A left fold becomes a Link to the node built so far; a push
     * builds the group up to its pop, which rewrites the push entry into a
     * Link; a pop ends the group. On a log with no push, pop or swap the
     * node has the tag, value and span the walk leaves and one child per
     * Link after the last new. ok is false when an assertion of the walk
     * stops the source; on a flat log, exactly when a linked node is null.
     * The node and log returned with a false ok stand for nothing.
     */
    method CreateNode(cur0: nat, pushed: int) returns (r: Node, ok: bool, ghost popAt: int)
      requires Valid() && cur0 <= |Contents()| && pushed < cur0
      modifies logs.list, NodesIn(Contents())
      decreases |Contents()| - cur0, 2
      ensures Valid() && |Contents()| == old(|Contents()|)
      ensures fresh(r) && fresh(r.Store()) && r.Valid()
      ensures forall o :: o in NodesIn(Contents()) ==> o in old(NodesIn(Contents())) || fresh(o)
      ensures forall k :: 0 <= k < cur0 && k != pushed ==> Contents()[k] == old(Contents())[k]
      ensures popAt >= 0 ==> (0 <= pushed && cur0 <= popAt < |Contents()| && Contents()[popAt].kind == Pop &&
        Contents()[pushed] == AstLog(Link, popAt - pushed, old(Contents())[pushed].val, r, Contents()[popAt].index))
      ensures Flat(old(Contents()), cur0) ==> popAt < 0 && Contents() == old(Contents())
      ensures Flat(old(Contents()), cur0) ==> Builds(r, old(Contents()), cur0, source)
      ensures Flat(old(Contents()), cur0) ==> (ok <==> NoNullChild(old(Contents()), cur0))
    {
      ghost var log := Contents();
      var len := logs.size;
      var w := StartAt(logs.list[..len], cur0);
      var i := cur0;
      ok := true;
      while i < len
        invariant Valid() && logs.size == len && cur0 <= w.head <= i
        invariant forall k :: 0 <= k < cur0 ==> Contents()[k] == log[k]
        invariant forall o :: o in NodesIn(Contents()) ==> o in NodesIn(log) || fresh(o)
        invariant Flat(log, cur0) ==> ok && Contents() == log && Walk(log, cur0, StartAt(log, cur0)) == Walk(log, i, w)
        decreases len as int - i
      {
        ghost var before := Contents();
        assert Flat(log, cur0) ==> Flat(before, i);
        var next, w', done, turned, at := Step(cur0, i, pushed, w);
        ok := ok && turned;
        if done != null {
          r, popAt := done, at;
          assert Flat(log, cur0) ==> false;
          return;
        }
        i, w := next, w';
      }
      NotANode(Contents(), this, logs);
      var built;
      r, built := ConstructLeft(w.head, len, w.spos, w.epos, w.objSize, w.tag, w.value);
      ok := ok && built;
      popAt := -1;
      if Flat(log, cur0) {
        BuildsAtEnd(r, log, cur0, source, w);
        WalkFromStart(log, cur0);
      }
    }

    /**
     * ast_commit_tx: build the node of the entries from tx on, drop them,
     * and log a Link to the node under labelId. ok is false when an
     * assertion of ast_create_node stops the source.
     */
    method CommitTx(labelId: nat, tx: nat) returns (ok: bool)
      requires Valid() && tx < |Contents()| && labelId < 0x1_0000
      modifies this, logs, logs.list, NodesIn(Contents())
      ensures Valid() && lastLinked != null && fresh(lastLinked) && lastLinked.Valid()
      ensures Contents() == old(Contents())[..tx] + [AstLog(Link, 0, 0, lastLinked, labelId)]
      ensures parsed == old(parsed) && source == old(source)
      ensures Flat(old(Contents()), tx) ==> Builds(lastLinked, old(Contents()), tx, source)
      ensures Flat(old(Contents()), tx) ==> (ok <==> NoNullChild(old(Contents()), tx))
    {
      ghost var log := Contents();
      NotANode(log, this, logs);
      var node, made, _ := CreateNode(tx, -1);
      ok := made;
      ghost var built := Contents();
      assert built[..tx] == log[..tx];
      NotInStore(node, this, logs);
      RollbackTx(tx);
      LogLink(labelId, node);
    }

    /**
     * ast_get_parsed_node: the cached node if there is one; else, for a
     * non-empty log, the node of the first New entry (NULL without one),
     * which is cached while the log is emptied. ok is false when an
     * assertion of ast_create_node stops the source.
     */
    method GetParsedNode() returns (r: Node?, ok: bool)
      requires Valid()
      modifies this, logs, logs.list, NodesIn(Contents())
      ensures Valid() && lastLinked == old(lastLinked) && source == old(source)
      ensures old(parsed) != null ==> r == old(parsed) && parsed == r && Contents() == old(Contents())
      ensures old(parsed) == null && old(|Contents()|) == 0 ==> r == null && parsed == null && Contents() == []
      ensures old(parsed) == null && old(|Contents()|) > 0 ==> parsed == r && Contents() == []
      ensures old(parsed) == null && FirstNew(old(Contents())) < 0 ==> r == null
      ensures old(parsed) == null && FirstNew(old(Contents())) >= 0 ==> r != null && fresh(r) && r.Valid()
      ensures old(parsed) == null && FirstNew(old(Contents())) >= 0 && Flat(old(Contents()), FirstNew(old(Contents()))) ==>
        r != null && Builds(r, old(Contents()), FirstNew(old(Contents())), source)
      ensures old(parsed) != null || FirstNew(old(Contents())) < 0 ==> ok
      ensures old(parsed) == null && FirstNew(old(Contents())) >= 0 && Flat(old(Contents()), FirstNew(old(Contents()))) ==>
        (ok <==> NoNullChild(old(Contents()), FirstNew(old(Contents()))))
    {
      ok := true;
      if parsed != null {
        return parsed, ok;
      }
      if logs.size == 0 {
        return null, ok;
      }
      NotANode(Contents(), this, logs);
      ghost var log := Contents();
      r, ok := ParseFirst();
      KeepParsed(r, log, if FirstNew(log) >= 0 then FirstNew(log) else 0);
    }

    /** The end of ast_get_parsed_node: roll the log back to empty and keep r as the parsed node. */
    method KeepParsed(r: Node?, ghost log: seq<AstLog>, ghost cur: nat)
      requires Valid() && ShiftsOk(log)
      requires r != null ==> this !in r.Store() && logs !in r.Store() && logs.list !in r.Store()
      modifies this, logs, logs.list
      ensures Valid() && Contents() == [] && parsed == r
      ensures lastLinked == old(lastLinked) && source == old(source)
      ensures r != null && old(r.Valid()) ==> r.Valid()
      ensures r != null && old(Builds(r, log, cur, source)) ==> Builds(r, log, cur, source)
    {
      RollbackTx(0);
      parsed := r;
    }

    /** The node of the first New of the log, if there is one, built in place. */
    method ParseFirst() returns (r: Node?, ok: bool)
      requires Valid()
      modifies logs.list, NodesIn(Contents())
      ensures Valid() && |Contents()| == old(|Contents()|)
      ensures FirstNew(old(Contents())) < 0 ==> r == null && ok
      ensures FirstNew(old(Contents())) >= 0 ==> r != null && fresh(r) && r.Valid()
      ensures r != null ==> this !in r.Store() && logs !in r.Store() && logs.list !in r.Store()
      ensures FirstNew(old(Contents())) >= 0 && Flat(old(Contents()), FirstNew(old(Contents()))) ==>
        r != null && Builds(r, old(Contents()), FirstNew(old(Contents())), source)
      ensures FirstNew(old(Contents())) >= 0 && Flat(old(Contents()), FirstNew(old(Contents()))) ==>
        (ok <==> NoNullChild(old(Contents()), FirstNew(old(Contents()))))
    {
      ghost var log := Contents();
      r, ok := null, true;
      var i := 0;
      while i < logs.size && logs.list[i].kind != New
        invariant 0 <= i <= logs.size && forall j :: 0 <= j < i ==> log[j].kind != New
      {
        i := i + 1;
      }
      if i < logs.size {
        assert FirstNew(log) == i;
        var node, built, _ := CreateNode(i, -1);
        r, ok := node, built;
        NotInStore(r, this, logs);
      }
    }
  }
}

module AstTest {
  import opened Ast
  import opened Node

  const TagString: nat := 1
  const TagInteger: nat := 2
  const TagList: nat := 3

  /** A log that links no node refers to none. */
  lemma NoNodes(log: seq<AstLog>)
    requires forall k :: 0 <= k < |log| ==> log[k].ref == null
    ensures NodesIn(log) == {}
  {
  }

  /** What the commit of the list log needs of it, entry by entry. */
  lemma ListFacts(log: seq<AstLog>, key: Node, elm0: Node, elm1: Node)
    requires log == [AstLog(New, 0, 0, null, 0), AstLog(New, 0, 0, null, 2), AstLog(Link, 0, 0, key, 1),
      AstLog(New, 0, 0, null, 10), AstLog(Link, 0, 0, elm0, 2), AstLog(Link, 0, 0, elm1, 3),
      AstLog(Tag, 0, 0, null, TagList), AstLog(Capture, 0, 0, null, 19)]
    ensures |log| == 8 && ShiftsOk(log) && Flat(log, 3)
    ensures log[3] == AstLog(New, 0, 0, null, 10) && log[4] == AstLog(Link, 0, 0, elm0, 2)
    ensures log[5] == AstLog(Link, 0, 0, elm1, 3) && log[6] == AstLog(Tag, 0, 0, null, TagList)
    ensures log[7] == AstLog(Capture, 0, 0, null, 19)
    ensures forall o :: o in NodesIn(log) ==> o == key || o == elm0 || o == elm1
  {
  }

  /** The walk of the first commit of test/test_ast.c, from its third entry. */
  lemma WalkString(log: seq<AstLog>)
    requires |log| == 5 && ShiftsOk(log)
    requires log[2] == AstLog(New, 0, 0, null, 3) && log[3] == AstLog(Tag, 0, 0, null, TagString)
    requires log[4] == AstLog(Capture, 0, 0, null, 6)
    ensures Flat(log, 2) && Walk(log, 2, StartAt(log, 2)) == Walker(2, 3, 6, TagString, 0, 0)
    ensures LinkedNodes(log, 2, 5) == []
  {
    assert Walk(log, 5, Walker(2, 3, 6, TagString, 0, 0)) == Walker(2, 3, 6, TagString, 0, 0);
    assert Walk(log, 4, Walker(2, 3, 3, TagString, 0, 0)) == Walker(2, 3, 6, TagString, 0, 0);
    assert Walk(log, 3, Walker(2, 3, 3, 0, 0, 0)) == Walker(2, 3, 6, TagString, 0, 0);
    assert LinkedNodes(log, 5, 5) == [];
  }

  /** The node that walk builds: #String over 3..6, without children. */
  lemma BuildsString(n: Node, log: seq<AstLog>)
    requires |log| == 5 && ShiftsOk(log)
    requires log[2] == AstLog(New, 0, 0, null, 3) && log[3] == AstLog(Tag, 0, 0, null, TagString)
    requires log[4] == AstLog(Capture, 0, 0, null, 6)
    requires Builds(n, log, 2, 0)
    ensures n.Valid() && n.tag == TagString && n.pos == 3 && n.len == 3 && n.Children() == []
  {
    WalkString(log);
    assert (6 - 3) % Word32 == 3;
  }

  /** The first five entries of test/test_ast.c, in a new machine over source 0. */
  method StringLog() returns (ast: AstMachine)
    ensures fresh(ast) && fresh(ast.logs) && fresh(ast.logs.list) && ast.Valid() && ast.source == 0
    ensures ast.Contents() == [AstLog(New, 0, 0, null, 0), AstLog(New, 0, 0, null, 2), AstLog(New, 0, 0, null, 3),
      AstLog(Tag, 0, 0, null, TagString), AstLog(Capture, 0, 0, null, 6)]
  {
    ast := new AstMachine.Init(128, 0);
    LogString(ast);
  }

  /** The five log calls of the first test of test/test_ast.c, on an empty log. */
  method LogString(ast: AstMachine)
    requires ast.Valid() && ast.Contents() == []
    modifies ast.logs, ast.logs.list
    ensures ast.Valid() && (ast.logs.list == old(ast.logs.list) || fresh(ast.logs.list))
    ensures ast.Contents() == [AstLog(New, 0, 0, null, 0), AstLog(New, 0, 0, null, 2), AstLog(New, 0, 0, null, 3),
      AstLog(Tag, 0, 0, null, TagString), AstLog(Capture, 0, 0, null, 6)]
  {
    ast.LogNew(0);
    ast.LogNew(2);
    assert ast.Contents() == [AstLog(New, 0, 0, null, 0), AstLog(New, 0, 0, null, 2)];
    ast.LogNew(3);
    ast.LogTag(TagString);
    assert ast.Contents() == [AstLog(New, 0, 0, null, 0), AstLog(New, 0, 0, null, 2), AstLog(New, 0, 0, null, 3),
      AstLog(Tag, 0, 0, null, TagString)];
    ast.LogCapture(6);
  }

  /**
   * The first commit of test/test_ast.c: new(0), new(2), new(3),
   * tag(String), capture(6), commit_tx(2) links #String spanning 3..6 with
   * no children, and the log keeps its first two entries plus that Link.
   */
  method CommitString() returns (tag: nat, pos: nat, len: nat, length: nat, size: nat, ok: bool)
    ensures tag == TagString && pos == 3 && len == 3 && length == 0 && size == 3 && ok
  {
    var ast := StringLog();
    ghost var log := ast.Contents();
    NoNodes(log);
    ok := ast.CommitTx(1, 2);
    var key := ast.lastLinked;
    BuildsString(key, log);
    tag, pos, len, length := key.tag, key.pos, key.len, key.Length();
    size := ast.SaveTx();
  }

  /** The first four entries of the fourth commit of test/test_ast.c. */
  method ListHead(key: Node) returns (ast: AstMachine)
    ensures fresh(ast) && fresh(ast.logs) && fresh(ast.logs.list) && ast.Valid() && ast.source == 0
    ensures ast.Contents() == [AstLog(New, 0, 0, null, 0), AstLog(New, 0, 0, null, 2), AstLog(Link, 0, 0, key, 1),
      AstLog(New, 0, 0, null, 10)]
  {
    ast := new AstMachine.Init(128, 0);
    ast.LogNew(0);
    assert ast.Contents() == [AstLog(New, 0, 0, null, 0)];
    ast.LogNew(2);
    assert ast.Contents() == [AstLog(New, 0, 0, null, 0), AstLog(New, 0, 0, null, 2)];
    ast.LogLink(1, key);
    assert ast.Contents() == [AstLog(New, 0, 0, null, 0), AstLog(New, 0, 0, null, 2), AstLog(Link, 0, 0, key, 1)];
    ast.LogNew(10);
  }

  /** The log of the fourth commit of test/test_ast.c: a list of two elements inside an outer node. */
  method ListLog(key: Node, elm0: Node, elm1: Node) returns (ast: AstMachine)
    ensures fresh(ast) && fresh(ast.logs) && fresh(ast.logs.list) && ast.Valid() && ast.source == 0
    ensures ast.Contents() == [AstLog(New, 0, 0, null, 0), AstLog(New, 0, 0, null, 2), AstLog(Link, 0, 0, key, 1),
      AstLog(New, 0, 0, null, 10), AstLog(Link, 0, 0, elm0, 2), AstLog(Link, 0, 0, elm1, 3),
      AstLog(Tag, 0, 0, null, TagList), AstLog(Capture, 0, 0, null, 19)]
  {
    ast := ListHead(key);
    ghost var head := ast.Contents();
    ast.LogLink(2, elm0);
    assert ast.Contents() == head + [AstLog(Link, 0, 0, elm0, 2)];
    ast.LogLink(3, elm1);
    assert ast.Contents() == head + [AstLog(Link, 0, 0, elm0, 2), AstLog(Link, 0, 0, elm1, 3)];
    ast.LogTag(TagList);
    assert ast.Contents() == head + [AstLog(Link, 0, 0, elm0, 2), AstLog(Link, 0, 0, elm1, 3),
      AstLog(Tag, 0, 0, null, TagList)];
    ast.LogCapture(19);
  }

  /** The walk of the fourth commit, from the fourth entry. */
  lemma WalkList(log: seq<AstLog>, elm0: Node, elm1: Node)
    requires |log| == 8 && ShiftsOk(log)
    requires log[3] == AstLog(New, 0, 0, null, 10) && log[4] == AstLog(Link, 0, 0, elm0, 2)
    requires log[5] == AstLog(Link, 0, 0, elm1, 3) && log[6] == AstLog(Tag, 0, 0, null, TagList)
    requires log[7] == AstLog(Capture, 0, 0, null, 19)
    ensures Flat(log, 3) && Walk(log, 3, StartAt(log, 3)) == Walker(3, 10, 19, TagList, 0, 2)
    ensures LinkedNodes(log, 3, 8) == [elm0, elm1]
  {
    var w := Walker(3, 10, 19, TagList, 0, 2);
    assert Walk(log, 8, w) == w;
    assert Walk(log, 7, w.(epos := 10)) == w;
    assert Walk(log, 6, Walker(3, 10, 10, 0, 0, 2)) == w;
    assert Walk(log, 5, Walker(3, 10, 10, 0, 0, 1)) == w;
    assert Walk(log, 4, Walker(3, 10, 10, 0, 0, 0)) == w;
    assert LinkedNodes(log, 6, 8) == [] by {
      assert LinkedNodes(log, 8, 8) == [];
      assert LinkedNodes(log, 7, 8) == [];
    }
    assert LinkedNodes(log, 5, 8) == [elm1];
    assert LinkedNodes(log, 4, 8) == [elm0, elm1];
  }

  /** Neither linked node of that walk is null, so constructLeft's assertion holds. */
  lemma NoNullList(log: seq<AstLog>, elm0: Node, elm1: Node)
    requires |log| == 8 && ShiftsOk(log)
    requires log[3] == AstLog(New, 0, 0, null, 10) && log[4] == AstLog(Link, 0, 0, elm0, 2)
    requires log[5] == AstLog(Link, 0, 0, elm1, 3) && log[6] == AstLog(Tag, 0, 0, null, TagList)
    requires log[7] == AstLog(Capture, 0, 0, null, 19)
    ensures NoNullChild(log, 3)
  {
    WalkList(log, elm0, elm1);
  }

  /** The node that walk builds: #List over 10..19 whose children are the two integers, in order. */
  lemma BuildsList(n: Node, log: seq<AstLog>, elm0: Node, elm1: Node)
    requires |log| == 8 && ShiftsOk(log)
    requires log[3] == AstLog(New, 0, 0, null, 10) && log[4] == AstLog(Link, 0, 0, elm0, 2)
    requires log[5] == AstLog(Link, 0, 0, elm1, 3) && log[6] == AstLog(Tag, 0, 0, null, TagList)
    requires log[7] == AstLog(Capture, 0, 0, null, 19)
    requires Builds(n, log, 3, 0)
    ensures n.Valid() && n.tag == TagList && n.pos == 10 && n.len == 9 && n.Children() == [elm0, elm1]
  {
    WalkList(log, elm0, elm1);
    assert (19 - 10) % Word32 == 9;
  }

  /**
   * The fourth commit of test/test_ast.c: commit_tx(3) links #List over
   * "[12, 345]" whose children are the two integer nodes in log order.
   */
  method CommitList() returns (tag: nat, pos: nat, len: nat, length: nat, first: bool, second: bool, ok: bool)
    ensures tag == TagList && pos == 10 && len == 9 && length == 2 && first && second && ok
  {
    var key := new Node.New(TagString, 3, 3, 0, 0);
    var elm0 := new Node.New(TagInteger, 11, 2, 0, 0);
    var elm1 := new Node.New(TagInteger, 15, 3, 0, 0);
    var ast := ListLog(key, elm0, elm1);
    ghost var log := ast.Contents();
    ListFacts(log, key, elm0, elm1);
    NoNullList(log, elm0, elm1);
    ok := ast.CommitTx(4, 3);
    var list := ast.lastLinked;
    BuildsList(list, log, elm0, elm1);
    tag, pos, len, length := list.tag, list.pos, list.len, list.Length();
    first := list.Get(0) == elm0;
    second := list.Get(1) == elm1;
  }
}
