/**
 The resumable reply reader of `read.c`, with the reply objects that `hiredis.c` builds for it.
 A reader keeps a stack of nine read tasks, a buffer whose front part is already consumed, and at
 most one half-read item. Every operation is held to the recursive parser of `Resp.dfy`.
 */
module RedisReader {
  import opened ByteStrings
  import opened Resp
  import opened RespResume
  import opened SdsBuffer

  const MAX_BUF: nat := 1024 * 16
  const STACK_SIZE: nat := 9
  const DISCARD_THRESHOLD: nat := 1024

  // ---------- Scanning the buffer ----------

  /**
   The offset of the first CR LF among the `len` bytes at `start`, or -1. A CR in the last place makes
   the loop look at the byte after the range, which is why a NUL has to follow it.
   */
  method SeekNewline(s: array<Byte>, start: nat, len: nat) returns (k: int)
    requires start + len < s.Length && s[start + len] == NUL
    ensures k >= 0 ==> Newline(s[start..start + len]) == Some(k)
    ensures k < 0 ==> k == -1 && Newline(s[start..start + len]).None?
  {
    ghost var view := s[start..start + len];
    var pos, last := 0, len - 1;
    while pos < last
      invariant 0 <= pos <= len
      invariant NewlineFrom(view, pos) == Newline(view)
      decreases len - pos
    {
      while pos < last && s[start + pos] != CR
        invariant 0 <= pos <= last
        invariant NewlineFrom(view, pos) == Newline(view)
        decreases last - pos
      {
        assert view[pos] == s[start + pos];
        pos := pos + 1;
      }
      if s[start + pos] != CR {
        return -1;
      } else if s[start + pos + 1] == LF {
        assert view[pos] == s[start + pos] && view[pos + 1] == s[start + pos + 1];
        return pos;
      } else {
        assert pos + 1 < len ==> view[pos + 1] == s[start + pos + 1];
        pos := pos + 1;
      }
    }
    return -1;
  }

  /** The number written at `p`, in a line that has its CR at `p + k`. */
  method ReadLongLong(s: array<Byte>, p: nat, ghost k: nat) returns (v: int)
    requires p + k < s.Length && s[p + k] == CR
    ensures v == Number(s[p..p + k])
  {
    ghost var line := s[p..p + k];
    var i, mult := p, 1;
    assert k > 0 ==> line[0] == s[p];
    if s[i] == MINUS {
      mult := -1;
      i := i + 1;
    } else if s[i] == PLUS {
      i := i + 1;
    }
    ghost var unsigned := s[i..p + k];
    assert unsigned == if i > p then line[1..] else line;
    v := 0;
    while s[i] != CR
      invariant p <= i <= p + k && v >= 0
      invariant Digits(s[i..p + k], v) == Digits(unsigned, 0)
      decreases p + k - i
    {
      var dec := s[i] - ZERO;
      assert s[i..p + k][0] == s[i] && s[i..p + k][1..] == s[i + 1..p + k];
      i := i + 1;
      if 0 <= dec < 10 {
        v := v * 10;
        v := v + dec;
      } else {
        return -1;
      }
    }
    assert i < p + k ==> s[i..p + k][0] == CR;
    v := mult * v;
  }

  // ---------- Reply objects ----------

  datatype ReplyType = StringReply | ArrayReply | IntegerReply | NilReply | StatusReply | ErrorReply

  /** A reply object on the heap; `element` has one slot a child and starts out full of nulls. */
  class ReplyNode {
    const ty: ReplyType
    const integer: int
    const str: Bytes
    const elements: nat
    const element: array?<ReplyNode?>
    /** Once the object is filled in: the reply it stands for. */
    ghost var value: Reply

    /** The object is filled in, with children taken from `owned`. */
    ghost predicate FilledIn(owned: set<object>)
      reads this, owned
    {
      match ty
      case StringReply => value == Str(str)
      case StatusReply => value == Status(str)
      case ErrorReply => value == Error(str)
      case IntegerReply => value == Integer(integer)
      case NilReply => value == Nil
      case ArrayReply =>
        && value.Array? && |value.elements| == elements
        && (elements > 0 ==> element != null && element in owned && element.Length == elements)
        && forall j | 0 <= j < elements :: Finished(element[j], value.elements[j], owned)
    }

    constructor CreateString(ty: ReplyType, str: Bytes)
      requires ty == StringReply || ty == StatusReply || ty == ErrorReply
      ensures value == if ty == StringReply then Str(str) else if ty == StatusReply then Status(str) else Error(str)
      ensures Closed({this})
    {
      this.ty, this.str, integer, elements, element := ty, str, 0, 0, null;
      value := if ty == StringReply then Str(str) else if ty == StatusReply then Status(str) else Error(str);
    }

    constructor CreateInteger(integer: int)
      ensures value == Integer(integer)
      ensures Closed({this})
    {
      this.ty, this.str, this.integer, elements, element := IntegerReply, [], integer, 0, null;
      value := Integer(integer);
    }

    constructor CreateNil()
      ensures value == Nil
      ensures Closed({this})
    {
      this.ty, this.str, this.integer, elements, element := NilReply, [], 0, 0, null;
      value := Nil;
    }

    constructor CreateArray(n: nat)
      ensures ty == ArrayReply && elements == n
      ensures n == 0 ==> value == Array([]) && Closed({this})
      ensures n > 0 ==> element != null && fresh(element) && element.Length == n && forall j | 0 <= j < n :: element[j] == null
    {
      this.ty, this.str, this.integer, elements := ArrayReply, [], 0, n;
      var slots: array?<ReplyNode?> := null;
      if n > 0 {
        slots := new ReplyNode?[n](_ => null);
      }
      element := slots;
      value := Array([]);
    }

    /** The reply that a filled-in object stands for, read off its fields. */
    method ToReply(ghost owned: set<object>) returns (r: Reply)
      requires Finished(this, value, owned) && Closed(owned)
      ensures r == value
      decreases value
    {
      assert FilledIn(owned);
      match ty
      case StringReply => r := Str(str);
      case StatusReply => r := Status(str);
      case ErrorReply => r := Error(str);
      case IntegerReply => r := Integer(integer);
      case NilReply => r := Nil;
      case ArrayReply =>
        var children: seq<Reply> := [];
        var j := 0;
        while j < elements
          invariant 0 <= j <= elements
          invariant children == value.elements[..j]
        {
          assert Finished(element[j], value.elements[j], owned);
          var child := element[j].ToReply(owned);
          children := children + [child];
          j := j + 1;
        }
        r := Array(children);
    }
  }

  /** All reply objects in the set are filled in and lead to no object outside it. */
  ghost predicate Closed(owned: set<object>)
    reads owned
  {
    forall n: ReplyNode | n in owned :: n.FilledIn(owned)
  }

  /** `n` is an object for `r` among the filled-in objects `owned`. */
  ghost predicate Finished(n: ReplyNode?, r: Reply, owned: set<object>)
    reads owned
  {
    n != null && n in owned && n.value == r
  }

  /** The bulk item in `s`, whose first line has `k` bytes. */
  lemma BulkHead(s: Bytes, k: nat)
    requires Newline(s) == Some(k)
    ensures k + 2 <= |s|
    ensures var n, h := Number(s[..k]), ReadHead(BulkItem, s, 0);
            if n < 0 then h == Done(Leaf(Nil), s[k + 2..])
            else if k + n + 4 <= |s| then h == Done(Leaf(Str(s[k + 2..k + 2 + n])), s[k + n + 4..])
            else h == More
  {
    hide Number;
    var n := Number(s[..k]);
    if 0 <= n && k + n + 4 <= |s| {
      assert s[k + 2..][..n] == s[k + 2..k + 2 + n];
      assert s[k + 2..][n + 2..] == s[k + n + 4..];
    }
  }

  lemma PartOfPart(s: array<Byte>, from: nat, to: nat, a: nat, b: nat)
    requires from <= to <= s.Length && a <= b <= to - from
    ensures s[from..to][a..b] == s[from + a..from + b]
  {
    forall i | 0 <= i < b - a
      ensures s[from..to][a..b][i] == s[from + a..from + b][i]
    {
      assert s[from..to][a + i] == s[from + a + i];
    }
  }

  lemma NoBulkHead(s: Bytes)
    requires Newline(s) == None
    ensures ReadHead(BulkItem, s, 0) == More
  {
  }

  /**
   The object for the bulk string at `pos` and the number of bytes it takes up; null when some are
   missing from the `len` bytes of the buffer.
   */
  method ReadBulk(s: array<Byte>, pos: nat, len: nat) returns (obj: ReplyNode?, bytelen: nat)
    requires pos <= len < s.Length && s[len] == NUL
    ensures var h := ReadHead(BulkItem, s[pos..len], 0);
            if obj == null then h.More?
            else
              && fresh(obj) && Closed({obj}) && pos + bytelen <= len
              && h == Done(Leaf(obj.value), s[pos..len][bytelen..])
  {
    hide ReadHead, Number;
    ghost var unread := s[pos..len];
    obj, bytelen := null, 0;
    var k := SeekNewline(s, pos, len - pos);
    assert s[pos..pos + (len - pos)] == unread;
    if k < 0 {
      NoBulkHead(unread);
      return;
    }
    BulkHead(unread, k);
    assert IsNewline(unread, k);
    assert unread[k] == s[pos + k];
    PartOfPart(s, pos, len, 0, k);
    assert unread[0..k] == unread[..k];
    bytelen := k + 2;
    var n := ReadLongLong(s, pos, k);
    if n < 0 {
      obj := new ReplyNode.CreateNil();
    } else {
      bytelen := bytelen + n + 2;
      if pos + bytelen <= len {
        PartOfPart(s, pos, len, k + 2, k + 2 + n);
        obj := new ReplyNode.CreateString(StringReply, s[pos + k + 2..pos + k + 2 + n]);
      }
    }
  }

  // ---------- The task stack ----------

  /** One slot of the task stack; `parent` is the slot below, or -1 at the bottom. */
  datatype Task = Task(ty: Option<ItemType>, elements: int, idx: int, obj: ReplyNode?, parent: int)

  /**
   The reply being built: the open arrays as `RespResume` sees them and their objects, from the outside
   in; the objects of the finished parts; and, among others, the element arrays of the open ones.
   */
  datatype Tree = Tree(frames: seq<Frame>, nodes: seq<ReplyNode>, complete: set<object>, slots: set<object>)

  const EMPTY_TREE := Tree([], [], {}, {})

  /**
   Slot `i` of the stack is an array task for `node`: the children before the current one are filled
   in, the later ones are not.
   */
  ghost predicate Level(rstack: array<Task>, i: nat, frame: Frame, node: ReplyNode, complete: set<object>)
    requires i + 1 < rstack.Length
    reads rstack, node.element, complete
  {
    var t, child := rstack[i], rstack[i + 1];
    && t.ty == Some(ArrayItem) && t.elements == frame.total && t.obj == node
    && node.ty == ArrayReply && node.elements == t.elements
    && node !in complete
    && node.element != null && node.element.Length == t.elements && node.element !in complete
    && child.parent == i && child.idx == |frame.done| < t.elements
    && (forall j | 0 <= j < child.idx :: Finished(node.element[j], frame.done[j], complete))
    && (forall j | child.idx < j < t.elements :: node.element[j] == null)
  }

  /** What the current child of the open array in slot `i` holds. */
  ghost function Slot(rstack: array<Task>, i: nat, frame: Frame, node: ReplyNode, complete: set<object>): ReplyNode?
    requires i + 1 < rstack.Length && Level(rstack, i, frame, node, complete)
    reads rstack, node.element, complete
  {
    node.element[rstack[i + 1].idx]
  }

  /** Every slot below the current one is an array that holds the next one in its current child. */
  ghost predicate Stack(rstack: array<Task>, ridx: nat, t: Tree)
    reads rstack, t.complete, t.slots
  {
    && |t.frames| == |t.nodes| == ridx < rstack.Length
    && rstack[0].parent == -1
    && rstack !in t.complete && rstack !in t.slots
    && (forall i | 0 <= i < ridx :: t.nodes[i].element != null && t.nodes[i].element in t.slots && t.nodes[i] !in t.slots)
    && (forall i | 0 <= i < ridx :: Level(rstack, i, t.frames[i], t.nodes[i], t.complete))
    && (forall i | 0 <= i < ridx - 1 :: Slot(rstack, i, t.frames[i], t.nodes[i], t.complete) == t.nodes[i + 1])
    && (forall i, j | 0 <= i < j < ridx :: t.nodes[i] != t.nodes[j] && t.nodes[i].element != t.nodes[j].element)
  }

  /** What the slot of the current item in its parent holds. */
  ghost function Current(rstack: array<Task>, ridx: nat, t: Tree): ReplyNode?
    requires Stack(rstack, ridx, t) && ridx > 0
    reads rstack, t.complete, t.slots
  {
    Slot(rstack, ridx - 1, t.frames[ridx - 1], t.nodes[ridx - 1], t.complete)
  }

  lemma LevelGrows(rstack: array<Task>, i: nat, frame: Frame, node: ReplyNode, complete: set<object>, more: set<object>)
    requires i + 1 < rstack.Length && Level(rstack, i, frame, node, complete)
    requires complete <= more && node !in more && node.element !in more
    ensures Level(rstack, i, frame, node, more)
  {
    forall j | 0 <= j < rstack[i + 1].idx
      ensures Finished(node.element[j], frame.done[j], more)
    {
      assert Finished(node.element[j], frame.done[j], complete);
    }
  }

  lemma ClosedUnion(a: set<object>, b: set<object>)
    requires Closed(a) && Closed(b)
    ensures Closed(a + b)
  {
    forall n: ReplyNode | n in a + b
      ensures n.FilledIn(a + b)
    {
      if n in a {
        assert n.FilledIn(a);
      } else {
        assert n.FilledIn(b);
      }
    }
  }

  /** A new finished object leaves the open arrays as they are. */
  lemma StackGrows(rstack: array<Task>, ridx: nat, t: Tree, more: set<object>)
    requires Stack(rstack, ridx, t) && t.complete <= more && rstack !in more
    requires forall n | n in t.nodes :: n !in more && n.element !in more
    ensures Stack(rstack, ridx, t.(complete := more))
    ensures ridx > 0 ==> Current(rstack, ridx, t.(complete := more)) == Current(rstack, ridx, t)
  {
    forall i | 0 <= i < ridx
      ensures Level(rstack, i, t.frames[i], t.nodes[i], more)
      ensures Slot(rstack, i, t.frames[i], t.nodes[i], more) == Slot(rstack, i, t.frames[i], t.nodes[i], t.complete)
    {
      LevelGrows(rstack, i, t.frames[i], t.nodes[i], t.complete, more);
    }
  }

  /** An array object whose slots are all filled in joins the filled-in objects. */
  ghost method Seal(node: ReplyNode, children: seq<Reply>, complete: set<object>)
    requires node.ty == ArrayReply && node.elements == |children| > 0
    requires node.element != null && node.element.Length == |children|
    requires node !in complete && Closed(complete)
    requires forall j | 0 <= j < |children| :: Finished(node.element[j], children[j], complete)
    modifies node
    ensures Closed(complete + {node, node.element})
    ensures node.value == Array(children)
  {
    node.value := Array(children);
    var more := complete + {node, node.element};
    forall n: ReplyNode | n in more
      ensures n.FilledIn(more)
    {
      assert n != node ==> n.FilledIn(complete);
    }
  }

  /** The tree without its innermost array, which now counts as finished. */
  ghost function Shrunk(t: Tree): Tree
    requires t.frames != [] && |t.nodes| == |t.frames|
  {
    var n := |t.frames| - 1;
    Tree(t.frames[..n], t.nodes[..n],
         t.complete + {t.nodes[n]} + (if t.nodes[n].element == null then {} else {t.nodes[n].element}), t.slots)
  }

  lemma StackShrinks(rstack: array<Task>, ridx: nat, t: Tree)
    requires ridx > 0 && Stack(rstack, ridx, t)
    ensures Stack(rstack, ridx - 1, Shrunk(t))
    ensures ridx > 1 ==> Current(rstack, ridx - 1, Shrunk(t)) == t.nodes[ridx - 1]
  {
    var n := ridx - 1;
    var more := Shrunk(t).complete;
    forall i | 0 <= i < n
      ensures Level(rstack, i, t.frames[i], t.nodes[i], more)
      ensures Slot(rstack, i, t.frames[i], t.nodes[i], more) == t.nodes[i + 1]
    {
      LevelGrows(rstack, i, t.frames[i], t.nodes[i], t.complete, more);
      assert Slot(rstack, i, t.frames[i], t.nodes[i], t.complete) == t.nodes[i + 1];
    }
  }

  /** The last child of the innermost array is in place: the array itself becomes a finished object. */
  ghost method CloseArray(rstack: array<Task>, ridx: nat, t: Tree, r: Reply) returns (t': Tree)
    requires ridx > 0 && Stack(rstack, ridx, t) && Closed(t.complete)
    requires Finished(Current(rstack, ridx, t), r, t.complete)
    requires rstack[ridx].idx == rstack[ridx - 1].elements - 1
    modifies t.nodes[ridx - 1]
    ensures t' == Shrunk(t) && Closed(t'.complete) && Stack(rstack, ridx - 1, t')
    ensures Finished(t.nodes[ridx - 1], Array(t.frames[ridx - 1].done + [r]), t'.complete)
    ensures ridx > 1 ==> Current(rstack, ridx - 1, t') == t.nodes[ridx - 1]
  {
    var n := ridx - 1;
    var node, children := t.nodes[n], t.frames[n].done + [r];
    assert Level(rstack, n, t.frames[n], node, t.complete);
    forall j | 0 <= j < |children|
      ensures Finished(node.element[j], children[j], t.complete)
    {
    }
    Seal(node, children, t.complete);
    t' := Shrunk(t);
    assert t'.complete == t.complete + {node, node.element};
    StackShrinks(rstack, ridx, t);
  }

  /** The tree with one more open array, still empty. */
  ghost function Opened(t: Tree, node: ReplyNode): Tree {
    t.(frames := t.frames + [Frame(node.elements, [])], nodes := t.nodes + [node],
       slots := t.slots + if node.element == null then {} else {node.element})
  }

  /** One slot of the stack is written; the `n` open arrays below it stay as they are. */
  method WriteTask(rstack: array<Task>, at: nat, task: Task, ghost n: nat, ghost t: Tree)
    requires n <= at < rstack.Length && n <= |t.frames| && n <= |t.nodes| && rstack !in t.complete
    requires n == at ==> task.parent == rstack[at].parent && task.idx == rstack[at].idx
    requires forall i | 0 <= i < n :: Level(rstack, i, t.frames[i], t.nodes[i], t.complete)
    modifies rstack
    ensures rstack[..] == old(rstack[..])[at := task]
    ensures forall i | 0 <= i < n :: Level(rstack, i, t.frames[i], t.nodes[i], t.complete)
    ensures forall i | 0 <= i < n ::
              Slot(rstack, i, t.frames[i], t.nodes[i], t.complete) == old(Slot(rstack, i, t.frames[i], t.nodes[i], t.complete))
  {
    hide Finished;
    rstack[at] := task;
    forall i | 0 <= i < n
      ensures Level(rstack, i, t.frames[i], t.nodes[i], t.complete)
    {
      assert old(Level(rstack, i, t.frames[i], t.nodes[i], t.complete));
    }
  }

  lemma LevelOpened(rstack: array<Task>, i: nat, node: ReplyNode, complete: set<object>)
    requires i + 1 < rstack.Length && rstack[i + 1] == Task(None, -1, 0, null, i)
    requires rstack[i].ty == Some(ArrayItem) && rstack[i].elements == node.elements && rstack[i].obj == node
    requires node.ty == ArrayReply && node.elements > 0 && node !in complete
    requires node.element != null && node.element.Length == node.elements && node.element !in complete
    requires forall j | 0 <= j < node.elements :: node.element[j] == null
    ensures Level(rstack, i, Frame(node.elements, []), node, complete)
    ensures Slot(rstack, i, Frame(node.elements, []), node, complete) == null
  {
  }

  /** The levels of an extended stack, put together. */
  lemma StackOpened(rstack: array<Task>, ridx: nat, t: Tree, node: ReplyNode)
    requires |t.frames| == |t.nodes| == ridx < rstack.Length - 1
    requires rstack[0].parent == -1 && rstack !in t.complete && rstack !in t.slots
    requires forall i | 0 <= i < ridx :: t.nodes[i].element != null && t.nodes[i].element in t.slots && t.nodes[i] !in t.slots
    requires forall i | 0 <= i < ridx :: Level(rstack, i, t.frames[i], t.nodes[i], t.complete)
    requires forall i | 0 <= i < ridx - 1 :: Slot(rstack, i, t.frames[i], t.nodes[i], t.complete) == t.nodes[i + 1]
    requires ridx > 0 ==> Slot(rstack, ridx - 1, t.frames[ridx - 1], t.nodes[ridx - 1], t.complete) == node
    requires forall i, j | 0 <= i < j < ridx :: t.nodes[i] != t.nodes[j] && t.nodes[i].element != t.nodes[j].element
    requires node !in t.nodes && node !in t.slots && node.element != null && node.element !in t.slots
    requires Level(rstack, ridx, Frame(node.elements, []), node, t.complete)
    requires Slot(rstack, ridx, Frame(node.elements, []), node, t.complete) == null
    ensures Stack(rstack, ridx + 1, Opened(t, node)) && Current(rstack, ridx + 1, Opened(t, node)) == null
  {
    hide Level, Slot;
    var t' := Opened(t, node);
    forall i | 0 <= i < ridx
      ensures t'.frames[i] == t.frames[i] && t'.nodes[i] == t.nodes[i]
    {
    }
    forall i | 0 <= i < ridx + 1
      ensures Level(rstack, i, t'.frames[i], t'.nodes[i], t'.complete)
    {
      assert i < ridx ==> Level(rstack, i, t.frames[i], t.nodes[i], t.complete);
    }
    forall i | 0 <= i < ridx
      ensures Slot(rstack, i, t'.frames[i], t'.nodes[i], t'.complete) == t'.nodes[i + 1]
    {
      if i < ridx - 1 {
        assert Slot(rstack, i, t.frames[i], t.nodes[i], t.complete) == t.nodes[i + 1];
      }
    }
    forall i, j | 0 <= i < j < ridx + 1
      ensures t'.nodes[i] != t'.nodes[j] && t'.nodes[i].element != t'.nodes[j].element
    {
      assert t.nodes[i] in t.nodes;
    }
  }

  /** The current slot becomes an array task and the slot above it waits for its first child. */
  method PushTask(rstack: array<Task>, ridx: nat, ghost t: Tree, node: ReplyNode)
    requires Stack(rstack, ridx, t) && ridx + 1 < rstack.Length
    requires ridx > 0 ==> Current(rstack, ridx, t) == node
    requires rstack[ridx].ty == Some(ArrayItem)
    requires node.ty == ArrayReply && node.elements > 0 && node !in t.nodes && node !in t.complete && node !in t.slots
    requires node.element != null && node.element.Length == node.elements
    requires node.element !in t.slots && node.element !in t.complete
    requires forall j | 0 <= j < node.elements :: node.element[j] == null
    modifies rstack
    ensures rstack[ridx + 1].ty == None
    ensures Stack(rstack, ridx + 1, Opened(t, node)) && Current(rstack, ridx + 1, Opened(t, node)) == null
  {
    hide Finished, Level, Slot;
    WriteTask(rstack, ridx, rstack[ridx].(elements := node.elements, obj := node), ridx, t);
    WriteTask(rstack, ridx + 1, Task(None, -1, 0, null, ridx), ridx, t);
    LevelOpened(rstack, ridx, node, t.complete);
    StackOpened(rstack, ridx, t, node);
  }

  /** The tree after the current child of its innermost array was read. */
  ghost function Advanced(t: Tree, r: Reply): Tree
    requires t.frames != []
  {
    var n := |t.frames| - 1;
    t.(frames := t.frames[..n] + [t.frames[n].(done := t.frames[n].done + [r])])
  }

  /** The array in slot `i` with `r` as one more finished child and the place of the next one still empty. */
  lemma LevelAdvanced(rstack: array<Task>, i: nat, frame: Frame, node: ReplyNode, complete: set<object>, r: Reply)
    requires i + 1 < rstack.Length && rstack[i].ty == Some(ArrayItem) && rstack[i].elements == frame.total && rstack[i].obj == node
    requires node.ty == ArrayReply && node.elements == frame.total && node !in complete
    requires node.element != null && node.element.Length == frame.total && node.element !in complete
    requires rstack[i + 1].parent == i && rstack[i + 1].idx == |frame.done| + 1 < frame.total
    requires forall j | 0 <= j < |frame.done| :: Finished(node.element[j], frame.done[j], complete)
    requires Finished(node.element[|frame.done|], r, complete)
    requires forall j | |frame.done| < j < frame.total :: node.element[j] == null
    ensures Level(rstack, i, frame.(done := frame.done + [r]), node, complete)
    ensures Slot(rstack, i, frame.(done := frame.done + [r]), node, complete) == null
  {
    hide Finished;
  }

  lemma StackAdvanced(rstack: array<Task>, ridx: nat, t: Tree, r: Reply)
    requires |t.frames| == |t.nodes| == ridx < rstack.Length && ridx > 0
    requires rstack[0].parent == -1 && rstack !in t.complete && rstack !in t.slots
    requires forall i | 0 <= i < ridx :: t.nodes[i].element != null && t.nodes[i].element in t.slots && t.nodes[i] !in t.slots
    requires forall i | 0 <= i < ridx - 1 :: Level(rstack, i, t.frames[i], t.nodes[i], t.complete)
    requires forall i | 0 <= i < ridx - 1 :: Slot(rstack, i, t.frames[i], t.nodes[i], t.complete) == t.nodes[i + 1]
    requires forall i, j | 0 <= i < j < ridx :: t.nodes[i] != t.nodes[j] && t.nodes[i].element != t.nodes[j].element
    requires var frame := Advanced(t, r).frames[ridx - 1];
             Level(rstack, ridx - 1, frame, t.nodes[ridx - 1], t.complete)
             && Slot(rstack, ridx - 1, frame, t.nodes[ridx - 1], t.complete) == null
    ensures Stack(rstack, ridx, Advanced(t, r)) && Current(rstack, ridx, Advanced(t, r)) == null
  {
    hide Level, Slot;
    var t' := Advanced(t, r);
    forall i | 0 <= i < ridx - 1
      ensures t'.frames[i] == t.frames[i]
    {
    }
    forall i | 0 <= i < ridx
      ensures Level(rstack, i, t'.frames[i], t'.nodes[i], t'.complete)
    {
      assert i < ridx - 1 ==> Level(rstack, i, t.frames[i], t.nodes[i], t.complete);
    }
    forall i | 0 <= i < ridx - 1
      ensures Slot(rstack, i, t'.frames[i], t'.nodes[i], t'.complete) == t'.nodes[i + 1]
    {
      assert Slot(rstack, i, t.frames[i], t.nodes[i], t.complete) == t.nodes[i + 1];
    }
  }

  /** The current child is in place and is not the last one: the next child of the same array is current. */
  method NextTask(rstack: array<Task>, ridx: nat, ghost t: Tree, ghost r: Reply)
    requires ridx > 0 && Stack(rstack, ridx, t)
    requires Finished(Current(rstack, ridx, t), r, t.complete)
    requires rstack[ridx].idx != rstack[ridx - 1].elements - 1
    modifies rstack
    ensures rstack[ridx].ty == None
    ensures Stack(rstack, ridx, Advanced(t, r)) && Current(rstack, ridx, Advanced(t, r)) == null
  {
    hide Finished;
    ghost var n := ridx - 1;
    ghost var frame, node := t.frames[n], t.nodes[n];
    assert Level(rstack, n, frame, node, t.complete);
    assert rstack[ridx].idx < rstack[n].elements;
    WriteTask(rstack, ridx, rstack[ridx].(ty := None, elements := -1, idx := rstack[ridx].idx + 1), n, t);
    LevelAdvanced(rstack, n, frame, node, t.complete, r);
    assert Advanced(t, r).frames[n] == frame.(done := frame.done + [r]);
    StackAdvanced(rstack, ridx, t, r);
  }

  /** The task stack of a reader. */
  class TaskStack {
    var rstack: array<Task>
    var ridx: int
    ghost var tree: Tree
    ghost var Repr: set<object>

    ghost predicate Valid()
      reads this, Repr
    {
      && this in Repr && rstack in Repr && rstack.Length == STACK_SIZE && rstack !in tree.complete && rstack !in tree.slots
      && tree.complete <= Repr && this !in tree.complete
      && tree.slots <= Repr && this !in tree.slots
      && (forall n | n in tree.nodes :: n in Repr)
      && -1 <= ridx <= 8
      && |tree.frames| == |tree.nodes| == (if ridx < 0 then 0 else ridx)
      && Closed(tree.complete)
      && (ridx >= 0 ==> Stack(rstack, ridx, tree))
    }

    /** The current item is complete and in its place. */
    ghost predicate Holding(r: Reply)
      reads this, Repr
    {
      Valid() && ridx >= 0 && (ridx > 0 ==> Finished(Current(rstack, ridx, tree), r, tree.complete))
    }

    /** The current item has yet to be read. */
    ghost predicate Waiting()
      reads this, Repr
    {
      Valid() && (ridx > 0 ==> Current(rstack, ridx, tree) == null)
    }

    constructor ()
      ensures Waiting() && fresh(Repr) && ridx == -1
    {
      var tasks := new Task[STACK_SIZE](_ => Task(None, -1, -1, null, -1));
      rstack, ridx := tasks, -1;
      tree := EMPTY_TREE;
      Repr := {this, tasks};
    }

    /** Sets the first item to process. */
    method Begin()
      requires Waiting() && ridx == -1
      modifies this, rstack
      ensures Waiting() && Repr == old(Repr) && rstack == old(rstack)
      ensures ridx == 0 && rstack[0].ty == None && tree == EMPTY_TREE
    {
      rstack[0] := Task(None, -1, -1, null, -1);
      tree := EMPTY_TREE;
      ridx := 0;
    }

    method SetType(ty: ItemType)
      requires Waiting() && ridx >= 0
      modifies rstack
      ensures Waiting() && rstack[ridx].ty == Some(ty)
    {
      hide Closed, Level, Slot;
      WriteTask(rstack, ridx, rstack[ridx].(ty := Some(ty)), ridx, tree);
    }

    /** The tail of the `create...Object` functions: the object goes into its parent's slot. */
    method Attach(node: ReplyNode)
      requires Waiting() && ridx >= 0
      modifies tree.slots
      ensures Valid() && (ridx > 0 ==> Current(rstack, ridx, tree) == node)
    {
      hide Closed;
      if rstack[ridx].parent != -1 {
        assert Level(rstack, ridx - 1, tree.frames[ridx - 1], tree.nodes[ridx - 1], tree.complete);
        var parent := rstack[rstack[ridx].parent].obj;
        assert parent.ty == ArrayReply;
        parent.element[rstack[ridx].idx] := node;
      }
    }

    /** A leaf object is attached and counts as finished. */
    method AttachLeaf(node: ReplyNode)
      requires Waiting() && ridx >= 0 && node !in Repr && Closed({node})
      modifies Repr
      ensures Holding(node.value) && node.value == old(node.value) && rstack == old(rstack)
      ensures Repr == old(Repr) + {node} && node in tree.complete && old(tree.complete) <= tree.complete
      ensures ridx == old(ridx) && tree.frames == old(tree.frames) && tree.nodes == old(tree.nodes)
    {
      hide Closed, Stack;
      Attach(node);
      ghost var more := tree.complete + {node};
      ClosedUnion(tree.complete, {node});
      assert forall n | n in tree.nodes :: n !in more && n.element !in more by { Footprint(); }
      StackGrows(rstack, ridx, tree, more);
      tree := tree.(complete := more);
      Repr := Repr + {node};
    }

    /** The objects of the open arrays belong to the stack and are not among the finished ones. */
    lemma Footprint()
      requires Valid()
      ensures rstack in Repr && rstack.Length == STACK_SIZE && -1 <= ridx <= 8
      ensures Closed(tree.complete) && tree.complete <= Repr && this !in tree.complete && rstack !in tree.complete
      ensures |tree.frames| == |tree.nodes| == if ridx < 0 then 0 else ridx
      ensures forall n | n in tree.nodes ::
                && n in Repr && n !in tree.complete && n.element !in tree.complete
                && n.element != null && n.element in Repr
    {
      forall n | n in tree.nodes
        ensures n !in tree.complete && n.element !in tree.complete && n.element != null && n.element in Repr
      {
        var i :| 0 <= i < |tree.nodes| && tree.nodes[i] == n;
        assert Level(rstack, i, tree.frames[i], tree.nodes[i], tree.complete);
      }
    }

    /** The innermost array has its last child: it leaves the stack as the finished current item. */
    method Pop(ghost r: Reply)
      requires Holding(r) && ridx > 0 && rstack[ridx].idx == rstack[ridx - 1].elements - 1
      modifies this, tree.nodes[ridx - 1]
      ensures Holding(Array(old(tree.frames[ridx - 1].done) + [r])) && Repr == old(Repr)
      ensures ridx == old(ridx) - 1 && rstack == old(rstack) && tree == Shrunk(old(tree))
      ensures Finished(old(tree.nodes[ridx - 1]), Array(old(tree.frames[ridx - 1].done) + [r]), tree.complete)
    {
      hide Closed, Stack;
      assert tree.nodes[ridx - 1] in tree.nodes;
      Footprint();
      tree := CloseArray(rstack, ridx, tree, r);
      ridx := ridx - 1;
    }

    /** The current item is not the last of its array: the next one becomes current. */
    method Advance(ghost r: Reply)
      requires Holding(r) && ridx > 0 && rstack[ridx].idx != rstack[ridx - 1].elements - 1
      modifies rstack, `tree
      ensures Waiting() && rstack[ridx].ty == None && tree == Advanced(old(tree), r)
    {
      hide Closed, Stack;
      NextTask(rstack, ridx, tree, r);
      tree := Advanced(tree, r);
    }

    /**
     `moveToNextTask`: closes every array that just got its last child, then makes the next child current.
     The result is the value of the whole reply when the stack ran empty.
     */
    method MoveToNextTask(ghost r: Reply) returns (ghost root: Reply)
      requires Holding(r)
      modifies this, rstack, tree.nodes
      ensures Waiting() && Repr == old(Repr) && old(tree.complete) <= tree.complete
      ensures ridx == -1 || ridx > 0
      ensures ridx < 0 ==> Concludes(old(tree.frames), r, root)
      ensures ridx < 0 ==> if old(ridx) == 0 then root == r else Finished(old(tree.nodes[0]), root, tree.complete)
      ensures ridx > 0 ==> 0 < old(ridx) && tree.nodes[0] == old(tree.nodes[0]) && rstack[ridx].ty == None
      ensures ridx > 0 ==> ResumesAt(old(tree.frames), r, tree.frames)
    {
      hide Closed, Stack, SameFinish, ResumesAt, Concludes, Finished, Level, Slot;
      root := r;
      SameStart(tree.frames, r);
      while ridx >= 0
        invariant Holding(root) && Repr == old(Repr) && 0 <= ridx <= old(ridx)
        invariant rstack == old(rstack) && tree.nodes == old(tree.nodes)[..ridx]
        invariant ridx == 0 ==> if old(ridx) == 0 then root == r else Finished(old(tree.nodes[0]), root, tree.complete)
        invariant old(tree.complete) <= tree.complete
        invariant SameFinish(old(tree.frames), r, tree.frames, root)
        decreases ridx
      {
        if ridx == 0 {
          SameRoot(old(tree.frames), r, root);
          ridx := ridx - 1;
          return;
        }
        ghost var frames := tree.frames;
        assert tree.nodes[ridx - 1] in old(tree.nodes);
        TopLevel();
        if rstack[ridx].idx == rstack[ridx - 1].elements - 1 {
          SamePop(old(tree.frames), r, frames, root);
          Pop(root);
          root := Array(frames[|frames| - 1].done + [root]);
        } else {
          assert rstack[ridx].idx < rstack[ridx - 1].elements;
          SameNext(old(tree.frames), r, frames, root);
          Advance(root);
          return;
        }
      }
    }

    /** The slot below the current one is an array task that is not yet full. */
    lemma TopLevel()
      requires Valid() && ridx > 0
      ensures var top := tree.frames[ridx - 1];
              && rstack[ridx - 1].ty == Some(ArrayItem)
              && rstack[ridx - 1].elements == top.total
              && rstack[ridx].idx == |top.done| < top.total
    {
      assert Level(rstack, ridx - 1, tree.frames[ridx - 1], tree.nodes[ridx - 1], tree.complete);
    }

    /** A non-empty array was created for the current item: its first child becomes current. */
    method OpenArray(node: ReplyNode)
      requires Waiting() && 0 <= ridx < 8 && rstack[ridx].ty == Some(ArrayItem)
      requires node !in Repr && node.ty == ArrayReply && node.elements > 0
      requires node.element != null && node.element !in Repr && node.element.Length == node.elements
      requires forall j | 0 <= j < node.elements :: node.element[j] == null
      modifies Repr
      ensures Waiting() && Repr == old(Repr) + {node, node.element}
      ensures ridx == old(ridx) + 1 && rstack[ridx].ty == None
      ensures tree == Opened(old(tree), node)
    {
      hide Closed, Stack, Level, Finished, Slot;
      Attach(node);
      PushTask(rstack, ridx, tree, node);
      tree := Opened(tree, node);
      ridx := ridx + 1;
      Repr := Repr + {node, node.element};
    }

    /** Forgets the reply being built. */
    method Reset()
      requires Valid()
      modifies this
      ensures Waiting() && ridx == -1 && tree == EMPTY_TREE && Repr == {this, rstack} && rstack == old(rstack)
    {
      ridx := -1;
      tree := EMPTY_TREE;
      Repr := {this, rstack};
    }
  }

  // ---------- The reader ----------

  class Reader {
    var err: Option<ProtocolError>
    var buf: Sds?
    var pos: nat
    var len: nat
    var maxbuf: nat
    /** `rstack` and `ridx` */
    const stack: TaskStack
    var reply: ReplyNode?
    ghost var Repr: set<object>

    /** The objects belong to the reader, and the buffer is in order unless an error released it. */
    ghost predicate Shape()
      reads this, Repr
    {
      && this in Repr && stack in Repr && stack.Repr <= Repr && this !in stack.Repr
      && stack.Valid()
      && (err.Some? ==> buf == null && pos == len == 0 && stack.ridx == -1 && reply == null)
      && (err.None? ==>
            && buf != null && buf in Repr && buf.buf in Repr && buf !in stack.Repr && buf.buf !in stack.Repr
            && buf.Valid() && len == buf.len && pos <= len)
    }

    /** The state between two items: the current item is unread and the root object is remembered. */
    ghost predicate Core()
      reads this, Repr
    {
      && Shape()
      && stack.Waiting()
      && (stack.ridx > 0 ==> reply == stack.tree.nodes[0])
      && (stack.ridx == 0 ==> reply == null)
      && (stack.ridx < 0 && reply != null ==> reply in stack.tree.complete)
    }

    /** The state between two calls: no finished reply is held back, no excessive nesting is unreported. */
    ghost predicate Valid()
      reads this, Repr
    {
      && Core()
      && (stack.ridx < 0 ==> reply == null)
      && (stack.ridx == 8 ==> stack.rstack[8].ty != Some(ArrayItem))
    }

    /** The bytes that were fed but not yet consumed. */
    ghost function Unread(): Bytes
      requires Shape() && err.None?
      reads this, Repr
    {
      buf.Contents()[pos..]
    }

    /** The half-read reply. */
    ghost function Pending(): Config
      requires Shape() && err.None?
      reads this, Repr
    {
      Config(stack.tree.frames, if stack.ridx < 0 then None else stack.rstack[stack.ridx].ty, Unread())
    }

    constructor ()
      ensures Valid() && fresh(Repr) && err.None?
      ensures Pending() == Config([], None, [])
    {
      err, pos, len, maxbuf, reply := None, 0, 0, MAX_BUF, null;
      var b := new Sds();
      var s := new TaskStack();
      buf, stack := b, s;
      Repr := {this, s, b, b.buf} + s.Repr;
    }

    /** `__redisReaderSetError`: clears the input buffer and the task stack. */
    method SetError(e: ProtocolError)
      requires Shape()
      modifies this, stack
      ensures Valid() && Repr == old(Repr)
      ensures err == Some(e) && reply == null && stack.ridx == -1
      ensures buf == null && pos == 0 && len == 0
    {
      reply := null;
      buf, pos, len := null, 0, 0;
      stack.Reset();
      err := Some(e);
    }

    /** Destroys the internal buffer when it is empty and quite large. */
    method DropIdleBuffer()
      requires Shape() && err.None?
      modifies `buf, `pos, `Repr
      ensures Shape() && old(Repr) <= Repr && fresh(Repr - old(Repr))
      ensures Unread() == old(Unread())
      ensures buf == old(buf) || fresh(buf)
      ensures buf.buf == old(buf.buf) || fresh(buf.buf)
    {
      if len == 0 && maxbuf != 0 && buf.free > maxbuf {
        buf := new Sds();
        pos := 0;
        Repr := Repr + {buf, buf.buf};
      }
    }

    /** The buffer part of `redisReaderFeed`. */
    method Append(bytes: Bytes)
      requires Shape() && err.None? && |bytes| >= 1
      modifies `buf, `pos, `len, `Repr, buf, buf.buf
      ensures Shape() && old(Repr) <= Repr && fresh(Repr - old(Repr))
      ensures Unread() == old(Unread()) + bytes
    {
      hide Closed, Stack, TaskStack.Valid;
      DropIdleBuffer();
      ghost var contents := buf.Contents();
      buf.CatLen(bytes);
      Repr := Repr + {buf.buf};
      len := buf.len;
      DropAppend(contents, bytes, pos);
    }

    /** `redisReaderFeed`: appends the bytes, unless the reader is in an erroneous state. */
    method Feed(bytes: Bytes) returns (ok: bool)
      requires Valid()
      modifies Repr
      ensures Valid() && fresh(Repr - old(Repr))
      ensures ok == old(err).None? && err == old(err)
      ensures ok ==> Pending() == old(Extend(Pending(), bytes))
    {
      hide Closed, Stack, TaskStack.Valid, TaskStack.Waiting;
      if err.Some? { return false; }
      stack.Footprint();
      if |bytes| >= 1 {
        Append(bytes);
      } else {
        assert Unread() + bytes == Unread();
      }
      ok := true;
    }

    /** What reading went on to find is what `before` was always going to end in. */
    ghost predicate Progressed(before: Config)
      requires Core()
      reads this, Repr
    {
      && err.None?
      && if stack.ridx >= 0 then Equivalent(before, Pending()) else reply != null && Ends(before, reply.value, Unread())
    }

    /** The bytes are used up inside an item that is still incomplete. */
    ghost predicate Starving(before: Config)
      requires Shape()
      reads this, Repr
    {
      err.None? && stack.ridx >= 0 && Equivalent(before, Pending()) && Resume(Pending()).More?
    }

    /** `readBytes` */
    method ReadBytes(bytes: nat) returns (p: int)
      requires Core() && err.None?
      modifies `pos
      ensures Core()
      ensures p >= 0 <==> bytes <= |old(Unread())|
      ensures p >= 0 ==> p == old(pos) && pos == p + bytes
      ensures p < 0 ==> pos == old(pos)
    {
      hide Closed, Stack;
      if len - pos >= bytes {
        p := pos;
        pos := pos + bytes;
      } else {
        p := -1;
      }
    }

    /** `readLine`: the line at the cursor, as the position of its first byte and its length. */
    method ReadLine() returns (ok: bool, p: nat, k: nat)
      requires Core() && err.None?
      modifies `pos
      ensures Core()
      ensures ok <==> Newline(old(Unread())).Some?
      ensures !ok ==> pos == old(pos)
      ensures ok ==> p == old(pos) && pos == p + k + 2 && Newline(old(Unread())) == Some(k)
      ensures ok ==> pos <= len && buf.buf[p + k] == CR && buf.buf[p..p + k] == old(Unread())[..k]
      ensures ok ==> Unread() == old(Unread())[k + 2..]
    {
      hide Closed, Stack, TaskStack.Valid, TaskStack.Waiting;
      ghost var unread := Unread();
      assert unread == buf.buf[pos..pos + (len - pos)];
      var at := SeekNewline(buf.buf, pos, len - pos);
      ok, p, k := at >= 0, pos, 0;
      if ok {
        k := at;
        assert IsNewline(unread, k);
        assert unread[k] == buf.buf[pos + k];
        assert unread[..k] == buf.buf[pos..pos + k];
        assert unread[k + 2..] == buf.Contents()[pos + k + 2..];
        pos := pos + k + 2;
      }
    }

    /** A leaf object was created for the current item: it is attached, and remembered if it is the root. */
    method Place(node: ReplyNode)
      requires Core() && err.None? && stack.ridx >= 0
      requires node !in Repr && Closed({node})
      modifies Repr, node
      ensures Shape() && err.None? && Unread() == old(Unread()) && Repr == old(Repr) + {node}
      ensures stack.Holding(node.value) && node.value == old(node.value) && node in stack.tree.complete
      ensures stack.ridx == old(stack.ridx) && stack.tree.frames == old(stack.tree.frames)
      ensures reply == if stack.ridx > 0 then stack.tree.nodes[0] else node
    {
      hide Closed, Stack, TaskStack.Valid;
      stack.AttachLeaf(node);
      Repr := Repr + {node};
      if stack.ridx == 0 {
        reply := node;
      }
      stack.Footprint();
    }

    /** The leaf is attached, and left behind. */
    method FinishItem(node: ReplyNode, ghost before: Config)
      requires Core() && err.None? && stack.ridx >= 0
      requires node !in Repr && Closed({node})
      requires LeafRead(before, stack.tree.frames, node.value, Unread())
      modifies Repr, node
      ensures Core() && Repr == old(Repr) + {node}
      ensures Progressed(before) && Unread() == old(Unread())
    {
      hide Closed, Stack, TaskStack.Valid, LeafRead, Concludes, ResumesAt, Equivalent, Ends;
      ghost var frames, unread, r := stack.tree.frames, Unread(), node.value;
      Place(node);
      stack.Footprint();
      ghost var root := stack.MoveToNextTask(r);
      assert Unread() == unread;
      if stack.ridx >= 0 {
        LeafThenNext(before, frames, r, unread, stack.tree.frames);
      } else {
        LeafThenRoot(before, frames, r, unread, root);
      }
    }

    /** The object for a line. */
    method CreateLineObject(ty: ItemType, p: nat, len: nat) returns (obj: ReplyNode)
      requires Core() && err.None?
      requires p + len < buf.buf.Length && buf.buf[p + len] == CR
      requires ty != BulkItem && ty != ArrayItem
      ensures fresh(obj) && Closed({obj}) && obj.value == LineReply(ty, buf.buf[p..p + len])
    {
      hide Stack, TaskStack.Valid, TaskStack.Waiting;
      if ty == IntegerItem {
        var v := ReadLongLong(buf.buf, p, len);
        obj := new ReplyNode.CreateInteger(v);
      } else {
        obj := new ReplyNode.CreateString(if ty == ErrorItem then ErrorReply else StatusReply, buf.buf[p..p + len]);
      }
    }

    /** An integer, a status or an error: everything up to the end of the line. */
    method ProcessLineItem() returns (ok: bool)
      requires Core() && err.None? && stack.ridx >= 0
      requires var ty := Pending().ty; ty.Some? && ty.value != BulkItem && ty.value != ArrayItem
      modifies Repr
      ensures Core() && fresh(Repr - old(Repr))
      ensures if ok then Progressed(old(Pending())) && |Unread()| + 2 <= |old(Unread())|
              else Starving(old(Pending())) && Unread() == old(Unread())
    {
      hide Closed, Stack, TaskStack.Waiting, Resume, Finish, Equivalent, LeafRead, Ends;
      ghost var c := Pending();
      var ty := stack.rstack[stack.ridx].ty.value;
      var found, p, len := ReadLine();
      if !found {
        Starved(c);
        EquivalentRefl(c);
        return false;
      }
      LeafReads(c);
      var obj := CreateLineObject(ty, p, len);
      FinishItem(obj, c);
      ok := true;
    }

    /** A bulk string: only once the buffer holds all of it, its two closing bytes included. */
    method ProcessBulkItem() returns (ok: bool)
      requires Core() && err.None? && stack.ridx >= 0 && Pending().ty == Some(BulkItem)
      modifies Repr
      ensures Core() && fresh(Repr - old(Repr))
      ensures if ok then Progressed(old(Pending())) && |Unread()| + 2 <= |old(Unread())|
              else Starving(old(Pending())) && Unread() == old(Unread())
    {
      hide Closed, Stack, TaskStack.Waiting, Resume, Finish, Equivalent, LeafRead, Ends;
      ghost var c := Pending();
      var obj, bytelen := ReadBulk(buf.buf, pos, len);
      assert buf.buf[pos..len] == c.input;
      if obj == null {
        Starved(c);
        EquivalentRefl(c);
        return false;
      }
      LeafReads(c);
      pos := pos + bytelen;
      FinishItem(obj, c);
      ok := true;
    }

    /** The current item opens an array with children to come. */
    method OpenItem(elements: nat, ghost before: Config)
      requires Core() && err.None? && 0 <= stack.ridx < 8 && Pending().ty == Some(ArrayItem) && elements > 0
      requires Equivalent(before, Config(Pending().stack + [Frame(elements, [])], None, Unread()))
      modifies Repr
      ensures Core() && fresh(Repr - old(Repr))
      ensures Progressed(before) && Unread() == old(Unread())
    {
      hide Closed, Stack, TaskStack.Valid, TaskStack.Waiting, Equivalent;
      var obj := new ReplyNode.CreateArray(elements);
      StartArray(obj);
    }

    /** An array header: nil, an empty array, or an array whose children come next. */
    method ProcessMultiBulkItem() returns (ok: bool)
      requires Core() && err.None? && stack.ridx >= 0 && Pending().ty == Some(ArrayItem)
      modifies Repr
      ensures Core() && fresh(Repr - old(Repr))
      ensures if ok then Progressed(old(Pending())) && |Unread()| + 2 <= |old(Unread())|
              else if err.Some? then Fails(old(Pending()), err.value)
              else Starving(old(Pending())) && Unread() == old(Unread())
    {
      hide Closed, Stack, TaskStack.Waiting, Resume, Finish, Equivalent, LeafRead, Ends, Fails;
      ghost var c := Pending();
      if stack.ridx == 8 {
        Refused(c);
        SetError(TooDeep);
        return false;
      }
      var found, p, len := ReadLine();
      if !found {
        Starved(c);
        EquivalentRefl(c);
        return false;
      }
      var elements := ReadLongLong(buf.buf, p, len);
      ok := true;
      if elements == -1 {
        LeafReads(c);
        var obj := new ReplyNode.CreateNil();
        FinishItem(obj, c);
      } else if elements <= 0 {
        LeafReads(c);
        var obj := new ReplyNode.CreateArray(0);
        FinishItem(obj, c);
      } else {
        OpenStep(c);
        OpenItem(elements, c);
      }
    }

    /** An array object with children was created for the current item: its first child becomes current. */
    method StartArray(obj: ReplyNode)
      requires Core() && err.None? && 0 <= stack.ridx < 8 && Pending().ty == Some(ArrayItem)
      requires obj !in Repr && obj.ty == ArrayReply && obj.elements > 0
      requires obj.element != null && obj.element !in Repr && obj.element.Length == obj.elements
      requires forall j | 0 <= j < obj.elements :: obj.element[j] == null
      modifies Repr
      ensures Core() && Repr == old(Repr) + {obj, obj.element}
      ensures err.None? && stack.ridx > 0
      ensures Pending() == Config(old(Pending()).stack + [Frame(obj.elements, [])], None, old(Unread()))
    {
      hide Closed, Stack, TaskStack.Valid;
      ghost var unread := Unread();
      var root := stack.ridx == 0;
      stack.Footprint();
      stack.OpenArray(obj);
      Repr := Repr + {obj, obj.element};
      if root { reply := obj; }
      assert Unread() == unread;
    }

    /** `processItem`: reads the type of the current item unless it is already known, then the item. */
    method ProcessItem() returns (ok: bool)
      requires Core() && err.None? && stack.ridx >= 0
      modifies Repr
      ensures Core() && fresh(Repr - old(Repr))
      ensures if ok then Progressed(old(Pending())) && |Unread()| + 2 <= |old(Unread())|
              else if err.Some? then Fails(old(Pending()), err.value)
              else Starving(old(Pending()))
    {
      hide Closed, Stack, TaskStack.Valid, Resume, Finish, Equivalent, LeafRead, Ends, Fails;
      ghost var c := Pending();
      ok := ReadType();
      if !ok { return; }
      ghost var d := Pending();
      stack.Footprint();
      var ty := stack.rstack[stack.ridx].ty;
      if ty == Some(BulkItem) {
        ok := ProcessBulkItem();
      } else if ty == Some(ArrayItem) {
        ok := ProcessMultiBulkItem();
      } else {
        ok := ProcessLineItem();
      }
      if ok {
        if stack.ridx >= 0 {
          EquivalentTrans(c, d, Pending());
        } else {
          EquivalentEnds(c, d, reply.value, Unread());
        }
      } else if err.Some? {
        EquivalentFails(c, d, err.value);
      } else {
        EquivalentTrans(c, d, Pending());
      }
    }

    /** The first part of `processItem`. */
    method ReadType() returns (ok: bool)
      requires Core() && err.None? && stack.ridx >= 0
      modifies Repr
      ensures Core() && Repr == old(Repr)
      ensures ok ==> err.None? && stack.ridx == old(stack.ridx) && Pending().ty.Some? && Equivalent(old(Pending()), Pending())
      ensures ok ==> |Unread()| <= |old(Unread())|
      ensures !ok ==> if err.Some? then Fails(old(Pending()), err.value) else Starving(old(Pending()))
    {
      hide Closed, Stack, TaskStack.Valid, Resume, Finish, Equivalent, Fails;
      ghost var c := Pending();
      stack.Footprint();
      EquivalentRefl(c);
      ok := true;
      if stack.rstack[stack.ridx].ty.None? {
        var p := ReadBytes(1);
        if p < 0 {
          Starved(c);
          return false;
        }
        assert buf.buf[p] == c.input[0];
        match TypeOf(buf.buf[p]) {
          case Some(ty) =>
            TypeStep(c);
            stack.SetType(ty);
            assert Unread() == c.input[1..];
          case None =>
            RefusedType(c);
            SetError(BadTypeByte(buf.buf[p]));
            ok := false;
        }
      }
    }

    /** Discards the consumed part of the buffer when it is at least 1k. */
    method Discard()
      requires Core() && err.None?
      modifies `pos, `len, buf, buf.buf
      ensures Core() && Unread() == old(Unread())
      ensures pos == if old(pos) >= DISCARD_THRESHOLD then 0 else old(pos)
    {
      hide Closed, Stack, TaskStack.Valid, TaskStack.Waiting;
      if pos >= DISCARD_THRESHOLD {
        buf.Range(pos, -1);
        pos := 0;
        len := buf.len;
      }
    }

    /** The loop of `redisReaderGetReply`: items are processed until a reply is whole, the input runs out or an error occurs. */
    method ProcessItems()
      requires Valid() && err.None?
      modifies Repr
      ensures Core() && fresh(Repr - old(Repr))
      ensures if err.Some? then Fails(old(Pending()), err.value)
              else if stack.ridx >= 0 then Starving(old(Pending()))
              else Progressed(old(Pending()))
    {
      hide Closed, Stack, TaskStack.Valid, Resume, Equivalent, Ends, Fails;
      ghost var c := Pending();
      EquivalentRefl(c);
      stack.Footprint();
      if stack.ridx == -1 {
        stack.Begin();
      }
      assert Pending() == c;
      var ok := true;
      while ok && stack.ridx >= 0
        invariant Core() && fresh(Repr - old(Repr))
        invariant ok ==> Progressed(c)
        invariant !ok ==> if err.Some? then Fails(c, err.value) else Starving(c)
        decreases ok, if ok then |Unread()| else 0
      {
        ghost var d := Pending();
        ok := ProcessItem();
        if ok {
          if stack.ridx >= 0 {
            EquivalentTrans(c, d, Pending());
          } else {
            EquivalentEnds(c, d, reply.value, Unread());
          }
        } else if err.Some? {
          EquivalentFails(c, d, err.value);
        } else {
          EquivalentTrans(c, d, Pending());
        }
      }
    }

    /** Hands out the finished reply, whose objects no longer belong to the reader. */
    method Emit() returns (r: ReplyNode, ghost owned: set<object>)
      requires Core() && err.None? && stack.ridx == -1 && reply != null
      modifies this, stack
      ensures Valid() && err.None? && Repr <= old(Repr)
      ensures r == old(reply) && r in owned && Closed(owned) && owned <= old(Repr) && owned !! Repr
      ensures this !in owned && stack !in owned
      ensures Pending() == Config([], None, old(Unread()))
    {
      hide Closed, Stack, TaskStack.Valid;
      stack.Footprint();
      r := reply;
      reply := null;
      owned := stack.tree.complete;
      stack.Reset();
      Repr := {this, stack, buf, buf.buf} + stack.Repr;
    }

    /**
     `redisReaderGetReply`: delivers the reply that the recursive parser finds in what is fed and not
     yet delivered, refuses what the parser refuses, and otherwise waits for more without losing anything.
     */
    method GetReply() returns (ok: bool, r: ReplyNode?, ghost owned: set<object>)
      requires Valid()
      modifies Repr
      ensures Valid() && fresh(Repr - old(Repr))
      ensures old(err).Some? ==> !ok && r == null && err == old(err)
      ensures old(err).None? ==> (
                if ok && r != null then
                  && err.None?
                  && Closed(owned) && r in owned && owned !! Repr
                  && Resume(old(Pending())) == Done(r.value, Unread())
                  && Pending() == Config([], None, Unread())
                  && Ends(old(Pending()), r.value, Unread())
                else if ok then
                  err.None? && Resume(old(Pending())).More? && Equivalent(old(Pending()), Pending())
                else
                  r == null && err.Some? && Fails(old(Pending()), err.value))
    {
      hide Closed, Stack, TaskStack.Valid, Resume, Equivalent, Ends, Fails;
      ok, r, owned := false, null, {};
      if err.Some? { return; }
      ghost var c := Pending();
      stack.Footprint();
      if len == 0 {
        Starved(c);
        EquivalentRefl(c);
        return true, null, {};
      }
      ProcessItems();
      if err.Some? { return; }
      stack.Footprint();
      ghost var d := Pending();
      Discard();
      assert Pending() == d;
      ok := true;
      if stack.ridx == -1 {
        r, owned := Emit();
        EndsNow(c, r.value, Unread());
      } else {
        EquivalentNow(c, d);
        WaitsInReach(d);
      }
    }
  }

  /**
   The loop of a client: every chunk is fed as it arrives and replies are taken until there is none. The
   replies and the first error are those of the recursive parser on the whole stream, however it was cut.
   */
  method Run(chunks: seq<Bytes>) returns (replies: seq<Reply>, error: Option<ProtocolError>)
    ensures var s := ParseStream(Concat(chunks)); replies == s.replies && error == s.error
  {
    hide Closed, Stack, TaskStack.Valid, TaskStack.Waiting, Resume, Equivalent, Ends, Fails, Delivered;
    var reader := new Reader();
    replies, error := [], None;
    ghost var fed: Bytes := [];
    DeliveredStart();
    DeliveredMore(fed, replies, reader.Pending()) by { Starved(reader.Pending()); }
    var i := 0;
    while i < |chunks| && error.None?
      invariant 0 <= i <= |chunks| && fed == Concat(chunks[..i])
      invariant reader.Valid() && fresh(reader.Repr) && reader.err == error
      invariant error.None? ==> Delivered(fed, replies, reader.Pending())
      invariant var s := ParseStream(fed); replies == s.replies && error == s.error
    {
      DeliveredFeed(fed, replies, reader.Pending(), chunks[i]);
      var _ := reader.Feed(chunks[i]);
      fed := fed + chunks[i];
      ConcatSnoc(chunks, i);
      i := i + 1;
      var more;
      replies, more := Drain(reader, fed, replies);
      error := more;
    }
    StreamSplits(fed, Concat(chunks[i..]));
    assert i == |chunks| ==> fed + Concat(chunks[i..]) == fed;
    ConcatAppend(chunks[..i], chunks[i..]);
    assert chunks[..i] + chunks[i..] == chunks;
  }

  /** Takes replies until the reader has none left or reports an error. */
  method Drain(reader: Reader, ghost fed: Bytes, delivered: seq<Reply>)
    returns (replies: seq<Reply>, error: Option<ProtocolError>)
    requires reader.Valid() && reader.err.None? && Delivered(fed, delivered, reader.Pending())
    modifies reader.Repr
    ensures reader.Valid() && fresh(reader.Repr - old(reader.Repr)) && reader.err == error
    ensures error.None? ==> Delivered(fed, replies, reader.Pending())
    ensures var s := ParseStream(fed); replies == s.replies && error == s.error
  {
    hide Closed, Stack, TaskStack.Valid, TaskStack.Waiting, Resume, Equivalent, Ends, Fails, Delivered;
    replies, error := delivered, None;
    while true
      invariant reader.Valid() && fresh(reader.Repr - old(reader.Repr)) && reader.err.None?
      invariant Delivered(fed, replies, reader.Pending())
      decreases |reader.Unread()|
    {
      ghost var c := reader.Pending();
      var ok, node, owned := reader.GetReply();
      if !ok {
        error := reader.err;
        DeliveredError(fed, replies, c, error.value);
        return;
      }
      if node == null {
        DeliveredMore(fed, replies, c);
        DeliveredWait(fed, replies, c, reader.Pending());
        return;
      }
      DeliveredReply(fed, replies, c, node.value, reader.Unread());
      var r := node.ToReply(owned);
      replies := replies + [r];
    }
  }
}
