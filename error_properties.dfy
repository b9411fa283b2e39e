/** What the walks and the builders of errors.go promise, stated over the
    model in Errors: the chain has no repeated node, the flattened message
    of a chain whose messages are all set is those messages joined outer to
    inner, the chain section of FormatStacktrace is one entry per node, and
    a handful of concrete call sequences with the results they give. */
module ErrorProperties {
  import opened Strings
  import opened Kinds
  import opened Operations
  import opened Errors

  /** Every node of the chain lies in the footprint of its top node. */
  lemma {:induction false} ChainInRepr<V>(e: ErrorNode<V>)
    requires e.Acyclic()
    ensures forall i :: 0 <= i < |e.Chain()| ==> e.Chain()[i] in e.Repr
    decreases e.Repr
  {
    if e.err.Own? {
      ChainInRepr(e.err.node);
    }
  }

  /** A walk never visits the same node twice: the chain has no repeats. */
  lemma {:induction false} ChainDistinct<V>(e: ErrorNode<V>)
    requires e.Acyclic()
    ensures forall i, j :: 0 <= i < j < |e.Chain()| ==> e.Chain()[i] != e.Chain()[j]
    decreases e.Repr
  {
    if e.err.Own? {
      var x := e.err.node;
      ChainDistinct(x);
      ChainInRepr(x);
      var c := e.Chain();
      assert c == [e] + x.Chain();
      forall i, j | 0 <= i < j < |c| ensures c[i] != c[j] {
        if i == 0 {
          assert c[j] == x.Chain()[j - 1];
          assert c[j] in x.Repr;
        } else {
          assert c[i] == x.Chain()[i - 1] && c[j] == x.Chain()[j - 1];
        }
      }
    }
  }

  /** The messages of a list of nodes, in order. */
  ghost function Messages<V>(nodes: seq<ErrorNode<V>>): seq<string>
    reads set i | 0 <= i < |nodes| :: nodes[i]
  {
    if nodes == [] then [] else [nodes[0].message] + Messages(nodes[1..])
  }

  /** The foreign error's text when the chain from `c` ends in one, else nothing. */
  ghost function TerminalTexts<V>(c: Cause<V>): seq<string>
    requires WellFounded(c)
  {
    match Terminal(c)
    case Foreign(text) => [text]
    case _ => []
  }

  ghost predicate AllMessagesSet<V>(nodes: seq<ErrorNode<V>>)
    reads set i | 0 <= i < |nodes| :: nodes[i]
  {
    forall i :: 0 <= i < |nodes| ==> nodes[i].message != ""
  }

  /** Below a node whose lower nodes all carry a message, the walk collects
      exactly those messages and then the foreign text, if any. */
  lemma {:induction false} PartsBelowAreMessages<V>(n: ErrorNode<V>)
    requires n.Acyclic()
    requires AllMessagesSet(CauseChain(n.err))
    ensures n.PartsBelow() == Messages(CauseChain(n.err)) + TerminalTexts(n.err)
    decreases n.Repr
  {
    if n.err.Own? {
      var x := n.err.node;
      var below := CauseChain(n.err);
      assert below == [x] + CauseChain(x.err);
      assert below[1..] == CauseChain(x.err);
      assert AllMessagesSet(CauseChain(x.err)) by {
        forall i | 0 <= i < |CauseChain(x.err)| ensures CauseChain(x.err)[i].message != "" {
          assert CauseChain(x.err)[i] == below[i + 1];
        }
      }
      assert x.message == below[0].message;
      PartsBelowAreMessages(x);
    }
  }

  /** Error() on a chain whose every node has a message: the messages,
      outermost first, then the foreign error's text, joined by ": ". */
  lemma FlattenAllMessagesSet<V>(e: ErrorNode<V>)
    requires e.Acyclic()
    requires AllMessagesSet(e.Chain())
    ensures e.Parts() == Messages(e.Chain()) + TerminalTexts(Own(e))
    ensures e.Flatten() == Join(Messages(e.Chain()) + TerminalTexts(Own(e)), ": ")
  {
    var c := e.Chain();
    assert c == [e] + CauseChain(e.err);
    assert c[1..] == CauseChain(e.err);
    assert AllMessagesSet(CauseChain(e.err)) by {
      forall i | 0 <= i < |CauseChain(e.err)| ensures CauseChain(e.err)[i].message != "" {
        assert CauseChain(e.err)[i] == c[i + 1];
      }
    }
    assert e.message == c[0].message;
    PartsBelowAreMessages(e);
  }

  /** The entries FormatStacktrace writes for a list of nodes: the first one
      with the marker when `first` holds, every other one with an arrow. */
  ghost function Entries<V>(nodes: seq<ErrorNode<V>>, first: bool): (r: seq<string>)
    reads set i | 0 <= i < |nodes| :: nodes[i]
    ensures |r| == |nodes|
  {
    if nodes == [] then []
    else [Entry(nodes[0].op, nodes[0].message, first)] + Entries(nodes[1..], false)
  }

  /** The chain section of FormatStacktrace is one entry per node, outermost
      first, then the foreign error's text if the chain ends in one, all
      separated by line breaks. */
  lemma {:induction false} RenderIsJoinOfEntries<V>(c: Cause<V>, first: bool)
    requires WellFounded(c)
    ensures Render(c, first) == Join(Entries(CauseChain(c), first) + TerminalTexts(c), LineBreak)
    decreases CauseRepr(c)
  {
    match c
    case NoCause =>
    case Foreign(text) =>
    case Own(x) =>
      RenderIsJoinOfEntries(x.err, false);
      RenderStep(x, first);
  }

  /** One step of the walk: if the section below a node is the join of its
      entries, so is the section from the node on. */
  lemma RenderStep<V>(x: ErrorNode<V>, first: bool)
    requires x.Acyclic()
    requires Render(x.err, false) == Join(Entries(CauseChain(x.err), false) + TerminalTexts(x.err), LineBreak)
    ensures Render(Own(x), first) == Join(Entries(CauseChain(Own(x)), first) + TerminalTexts(Own(x)), LineBreak)
  {
    var entry := Entry(x.op, x.message, first);
    var rest := Entries(CauseChain(x.err), false) + TerminalTexts(x.err);
    EntriesOfChainUnfold(x, first);
    assert TerminalTexts(Own(x)) == TerminalTexts(x.err);
    assert Entries(CauseChain(Own(x)), first) + TerminalTexts(Own(x)) == [entry] + rest;
    NoMoreEntries(x.err);
    RenderOwn(x, first, rest);
  }

  /** The section from a node is its entry, then the rest joined by line
      breaks when there is a rest. */
  lemma RenderOwn<V>(x: ErrorNode<V>, first: bool, rest: seq<string>)
    requires x.Acyclic()
    requires Render(x.err, false) == Join(rest, LineBreak)
    requires x.err.NoCause? <==> rest == []
    ensures Render(Own(x), first) == Join([Entry(x.op, x.message, first)] + rest, LineBreak)
  {
    var entry := Entry(x.op, x.message, first);
    JoinCons(entry, rest, LineBreak);
    if x.err.NoCause? {
      assert Render(Own(x), first) == entry + "" + "";
    } else {
      assert Render(Own(x), first) == entry + LineBreak + Join(rest, LineBreak);
    }
  }

  /** The entries of a chain: the top node's, then those of the chain below it. */
  lemma EntriesOfChainUnfold<V>(x: ErrorNode<V>, first: bool)
    requires x.Acyclic()
    ensures Entries(CauseChain(Own(x)), first)
         == [Entry(x.op, x.message, first)] + Entries(CauseChain(x.err), false)
  {
    var nodes := CauseChain(Own(x));
    assert nodes == [x] + CauseChain(x.err);
    assert nodes[1..] == CauseChain(x.err);
  }

  /** Nothing is left to write exactly when the walk has reached nil. */
  lemma NoMoreEntries<V>(c: Cause<V>)
    requires WellFounded(c)
    ensures c.NoCause? <==> Entries(CauseChain(c), false) + TerminalTexts(c) == []
  {
    if c.Own? {
      assert |Entries(CauseChain(c), false)| >= 1;
    }
  }

  /** Only the first entry of the section ends with the marker: every later
      one ends with the closing quote of its message. */
  lemma FirstEntryMarked(op: Operation, message: string, first: bool)
    ensures var r := Entry(op, message, first);
      first <==> r[|r| - 1] == Marker[|Marker| - 1]
  {
    var r := Entry(op, message, first);
    if !first {
      assert r[|r| - 1] == Quote(message)[|Quote(message)| - 1] == '"';
    }
  }

  /** A list without repeats has as many distinct elements as entries. */
  lemma {:induction false} DistinctCount(order: seq<string>)
    requires forall i, j :: 0 <= i < j < |order| ==> order[i] != order[j]
    ensures |set i | 0 <= i < |order| :: order[i]| == |order|
  {
    if order != [] {
      var tail := order[1..];
      DistinctCount(tail);
      var all := set i | 0 <= i < |order| :: order[i];
      var rest := set i | 0 <= i < |tail| :: tail[i];
      assert all == {order[0]} + rest by {
        forall k | k in all ensures k in {order[0]} + rest {
          var i :| 0 <= i < |order| && order[i] == k;
          if i > 0 { assert tail[i - 1] == k; }
        }
        forall k | k in rest ensures k in all {
          var i :| 0 <= i < |tail| && tail[i] == k;
          assert order[i + 1] == k;
        }
      }
      forall i | 0 <= i < |tail| ensures tail[i] != order[0] {
        assert tail[i] == order[i + 1];
      }
      assert order[0] !in rest;
    }
  }

  /** The key order FormatStacktrace is given lists each key of the map
      exactly once, as one pass of Go's map iteration does. */
  lemma OrderVisitsEveryKey<V>(order: seq<string>, m: map<string, V>)
    requires forall i :: 0 <= i < |order| ==> order[i] in m
    requires forall i, j :: 0 <= i < j < |order| ==> order[i] != order[j]
    requires |order| == |m|
    ensures forall k :: k in m ==> k in order
  {
    var visited := set i | 0 <= i < |order| :: order[i];
    DistinctCount(order);
    assert visited <= m.Keys;
    assert |m.Keys| == |m|;
    var missing := m.Keys - visited;
    assert m.Keys == visited + missing && visited * missing == {};
    assert |missing| == 0;
    forall k | k in m ensures k in order {
      assert k in visited;
    }
  }

  /** Wrap(nil, "m").Error() is "m", with no separator. */
  method WrapNilFlattensToMessage(op: Operation, m: string) returns (s: string)
    ensures s == m
  {
    var e: ErrorNode<int> := Wrap(NoCause, op, m);
    s := e.Error();
    assert e.Parts() == if m == "" then [] else [m];
  }

  /** Wrap of a foreign error: the wrapper's message, then the foreign
      text; an empty wrapper message is skipped along with its separator. */
  method WrapForeignFlattens(op: Operation, m: string, text: string) returns (s: string)
    ensures s == if m == "" then text else m + ": " + text
  {
    var e: ErrorNode<int> := Wrap(Foreign(text), op, m);
    s := e.Error();
    if m == "" {
      assert e.Parts() == [text];
    } else {
      assert e.Parts() == [m, text];
      assert [m, text][1..] == [text];
      assert Join([m, text], ": ") == m + ": " + text;
    }
  }

  /** Wrapping a node that has a message with another message puts the new
      message and ": " in front of the wrapped node's flattened text. */
  lemma WrapPrefixesMessage<V>(c: ErrorNode<V>)
    requires c.Acyclic() && c.message != "" && c.err.Own? && c.err.node.message != ""
    ensures c.Flatten() == c.message + ": " + c.err.node.Flatten()
  {
    var x := c.err.node;
    assert x.Parts() == [x.message] + x.PartsBelow();
    assert c.PartsBelow() == [x.message] + x.PartsBelow();
    assert c.Parts() == [c.message] + x.Parts();
    JoinCons(c.message, x.Parts(), ": ");
  }

  /** Three levels built from New: outermost message first. */
  method ThreeLevelsFlatten(op: Operation) returns (s: string)
    ensures s == "c: b: a"
  {
    var a: ErrorNode<int> := New(op, "a");
    assert a.Parts() == ["a"];
    var b := Wrap(Own(a), op, "b");
    WrapPrefixesMessage(b);
    var c := Wrap(Own(b), op, "c");
    WrapPrefixesMessage(c);
    s := c.Error();
  }

  /** A node with an empty message over some cause contributes its whole
      flattened text, and the walk then goes on below it: the text below it
      appears twice in the flattened message of the node above. */
  lemma EmptyMessageRepeatsBelow<V>(c: ErrorNode<V>)
    requires c.Acyclic() && c.message != "" && c.err.Own?
    requires c.err.node.message == "" && !c.err.node.err.NoCause?
    ensures var b := c.err.node;
      c.Flatten() == c.message + ": " + b.Flatten() + ": " + b.Flatten()
  {
    var b := c.err.node;
    var below := b.PartsBelow();
    PartsBelowNonEmpty(b);
    OverEmptyMessage(c);
    JoinCons(c.message, [b.Flatten()] + below, ": ");
    JoinCons(b.Flatten(), below, ": ");
  }

  /** A walk from a cause that is not nil collects at least one part. */
  lemma PartsBelowNonEmpty<V>(b: ErrorNode<V>)
    requires b.Acyclic() && !b.err.NoCause?
    ensures b.PartsBelow() != []
  {
    if b.err.Own? {
      assert b.PartsBelow() == [b.err.node.Contribution()] + b.err.node.PartsBelow();
    }
  }

  /** Over a node with an empty message, the walk collects that node's
      flattened text and then the parts below it. */
  lemma OverEmptyMessage<V>(c: ErrorNode<V>)
    requires c.Acyclic() && c.message != "" && c.err.Own? && c.err.node.message == ""
    ensures var b := c.err.node;
      b.Flatten() == Join(b.PartsBelow(), ": ") &&
      c.Parts() == [c.message] + ([b.Flatten()] + b.PartsBelow())
  {
    var b := c.err.node;
    assert b.Parts() == [] + b.PartsBelow() == b.PartsBelow();
    assert c.PartsBelow() == [b.Contribution()] + b.PartsBelow();
  }

  /** The smallest case: "c" over "" over "a" reads "c: a: a". */
  method EmptyMiddleMessageRepeats(op: Operation) returns (s: string)
    ensures s == "c: a: a"
  {
    var a: ErrorNode<int> := New(op, "a");
    assert a.Contribution() == "a" && a.PartsBelow() == [];
    var b := Wrap(Own(a), op, "");
    assert b.PartsBelow() == [a.Contribution()] + a.PartsBelow();
    assert b.Flatten() == Join(["a"], ": ") == "a";
    var c := Wrap(Own(b), op, "c");
    s := c.Error();
    EmptyMessageRepeatsBelow(c);
  }

  /** Reading the flattened message twice gives the same text. */
  method ErrorIsRepeatable<V>(e: ErrorNode<V>) returns (s1: string, s2: string)
    requires e.Acyclic()
    ensures s1 == s2 == e.Flatten()
  {
    s1 := e.Error();
    s2 := e.Error();
  }

  /** Wrapping adds exactly one frame, on top: the wrapper's call site. */
  method WrapAddsOneFrame<V>(inner: ErrorNode<V>, op: Operation, m: string) returns (before: seq<string>, after: seq<string>)
    requires inner.Acyclic()
    ensures after == [Location(op)] + before
  {
    ghost var below := inner.Chain();
    ChainInRepr(inner);
    before := inner.Stacktrace();
    label Before:
    var e := Wrap(Own(inner), op, m);
    after := e.Stacktrace();
    assert e.Chain() == [e] + below;
    forall i | 0 <= i < |before| ensures after[i + 1] == before[i] {
      assert below[i] in inner.Repr;
      assert below[i].op == old@Before(below[i].op);
    }
    ShiftedByOne(after, before, Location(op));
  }

  /** A sequence whose first element is `x` and whose rest matches `t`
      position by position is `x` followed by `t`. */
  lemma ShiftedByOne<T>(s: seq<T>, t: seq<T>, x: T)
    requires |s| == |t| + 1 && s[0] == x
    requires forall i :: 0 <= i < |t| ==> s[i + 1] == t[i]
    ensures s == [x] + t
  {
    assert s[1..] == t;
  }

  /** The two stacktraces of one chain have one entry per node each, and
      entry i of the second is node i's location with package and file
      swapped, then node i's message. */
  method StacktracesAgree<V>(e: ErrorNode<V>) returns (plain: seq<string>, withMessage: seq<string>)
    requires e.Acyclic()
    ensures |plain| == |withMessage| == |e.Chain()|
    ensures forall i :: 0 <= i < |withMessage| ==>
      withMessage[i] == Location(e.Chain()[i].op.(pkg := e.Chain()[i].op.file, file := e.Chain()[i].op.pkg))
                        + " ; " + e.Chain()[i].message
  {
    plain := e.Stacktrace();
    withMessage := e.StacktraceWithMessage();
  }

  /** Wrap shares the inner node's map: a field set through the wrapper is
      seen through the inner node, and the wrapper keeps the inner kind. */
  method WrapSharesFields<V>(inner: ErrorNode<V>, op: Operation, m: string, key: string, v: V)
    returns (value: Option<V>, ok: bool, wrapperKind: Kind)
    requires inner.Acyclic()
    modifies inner.fields
    ensures ok && value == Some(v)
    ensures wrapperKind == inner.kind
  {
    var e := Wrap(Own(inner), op, m);
    wrapperKind := e.kind;
    e := e.WithField(key, v);
    value, ok := inner.GetField(key);
  }

  /** WithField then GetField on the same key gives the value back; any
      other key reads as before. */
  method WithFieldThenGet<V>(e: ErrorNode<V>, key: string, v: V, other: string)
    returns (value: Option<V>, ok: bool, otherBefore: Option<V>, otherAfter: Option<V>)
    requires other != key
    modifies e.fields
    ensures ok && value == Some(v)
    ensures otherAfter == otherBefore
  {
    var found: bool;
    otherBefore, found := e.GetField(other);
    var r := e.WithField(key, v);
    value, ok := r.GetField(key);
    otherAfter, found := r.GetField(other);
  }

  /** NewWithKind then WithKind: the later kind wins, and the status code
      follows it. */
  method KindOverride<V>(op: Operation, m: string) returns (before: int, after: int)
    ensures before == 404 && after == 400
  {
    var e: ErrorNode<V> := NewWithKind(KindNotFound, op, m);
    before := ToStatusCode(e.kind);
    var w := Wrap(Own(e), op, "outer");
    w := w.WithKind(KindInvalidArgument);
    after := ToStatusCode(w.kind);
  }
}
