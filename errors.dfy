/** The error node of errors.go: a heap object carrying a call site, a
    kind, a message, a shared field map and a wrapped cause, together with
    its constructors, its builder-style mutators and the three walks that
    flatten or render the chain. */
module Errors {
  import opened Strings
  import opened Kinds
  import opened Operations

  datatype Option<T> = None | Some(value: T)

  /** A Go map[string]interface{} as a heap object, so that two nodes can
      share one map exactly as Wrap makes them do. */
  class FieldMap<V> {
    var m: map<string, V>

    constructor ()
      ensures m == map[]
    {
      m := map[];
    }
  }

  /** What a node wraps: nothing (nil), another node of this package, or an
      error from elsewhere, known only through the text its Error() gives. */
  datatype Cause<V> = NoCause | Own(node: ErrorNode<V>) | Foreign(text: string)

  ghost predicate WellFounded<V>(c: Cause<V>)
  {
    c.Own? ==> c.node.Acyclic()
  }

  /** The nodes a walk from `c` can reach; it shrinks at every step. */
  ghost function CauseRepr<V>(c: Cause<V>): set<object>
  {
    if c.Own? then c.node.Repr else {}
  }

  /** The nodes reached from a cause, outermost first. */
  ghost function CauseChain<V>(c: Cause<V>): (nodes: seq<ErrorNode<V>>)
    requires WellFounded(c)
    ensures c.Own? ==> |nodes| >= 1 && nodes[0] == c.node
  {
    if c.Own? then c.node.Chain() else []
  }

  /** Where the walk from a cause stops: nil or the first foreign error. */
  ghost function Terminal<V>(c: Cause<V>): (t: Cause<V>)
    requires WellFounded(c)
    decreases CauseRepr(c)
    ensures !t.Own?
  {
    if c.Own? then Terminal(c.node.err) else c
  }

  class ErrorNode<V> {
    var op: Operation
    var kind: Kind
    var message: string
    /** The map object; Wrap may hand the wrapped node's map to the new node. */
    const fields: FieldMap<V>
    /** The wrapped error; the package never reassigns it after construction. */
    const err: Cause<V>
    /** This node and the nodes below it: what the walks read. */
    ghost const Repr: set<object>

    /** The chain below this node is finite: every node's footprint strictly
        contains the footprint of the node it wraps. */
    ghost predicate Acyclic()
      decreases Repr
    {
      this in Repr &&
      (err.Own? ==> err.node.Repr < Repr && this !in err.node.Repr && err.node.Acyclic())
    }

    /** The `&Error{...}` literal. */
    constructor (op: Operation, kind: Kind, message: string, fields: FieldMap<V>, err: Cause<V>)
      requires WellFounded(err)
      ensures this.op == op && this.kind == kind && this.message == message
      ensures this.fields == fields && this.err == err
      ensures Acyclic() && Repr == {this} + CauseRepr(err)
    {
      this.op := op;
      this.kind := kind;
      this.message := message;
      this.fields := fields;
      this.err := err;
      Repr := {this} + CauseRepr(err);
    }

    /** This node and every node below it, outermost first. */
    ghost function Chain(): (nodes: seq<ErrorNode<V>>)
      requires Acyclic()
      decreases Repr
      ensures |nodes| >= 1 && nodes[0] == this
    {
      [this] + (if err.Own? then err.node.Chain() else [])
    }

    /** What a node below the top adds to the flattened message: its own
        message, or its whole flattened text when its message is empty. */
    ghost function Contribution(): string
      requires Acyclic()
      reads Repr
      decreases Repr, 3
    {
      if message != "" then message else Flatten()
    }

    /** The flattened message: the parts joined by ": ". */
    ghost function Flatten(): string
      requires Acyclic()
      reads Repr
      decreases Repr, 2
    {
      Join(Parts(), ": ")
    }

    /** The parts Error() collects: the own message unless it is empty, then
        whatever the walk below this node collects. */
    ghost function Parts(): seq<string>
      requires Acyclic()
      reads Repr
      decreases Repr, 1
    {
      (if message != "" then [message] else []) + PartsBelow()
    }

    /** The parts the walk collects from the wrapped cause onward: one per
        node below, then the foreign error's text if the chain ends in one. */
    ghost function PartsBelow(): seq<string>
      requires Acyclic()
      reads Repr
      decreases Repr, 0
    {
      match err
      case NoCause => []
      case Foreign(text) => [text]
      case Own(x) => [x.Contribution()] + x.PartsBelow()
    }

    /** Error(): the messages of the chain, outermost first, joined by ": ". */
    method Error() returns (s: string)
      requires Acyclic()
      ensures s == Flatten()
      decreases Repr
    {
      var errors: seq<string> := [];
      if message != "" {
        errors := errors + [message];
      }
      var tmp := err;
      ghost var cur := this;
      while !tmp.NoCause?
        invariant cur.Acyclic() && tmp == cur.err && cur.Repr <= Repr
        invariant errors + cur.PartsBelow() == Parts()
        decreases cur.Repr
      {
        ghost var before := errors;
        match tmp
        case Own(x) =>
          if x.message != "" {
            errors := errors + [x.message];
          } else {
            var inner := x.Error();
            errors := errors + [inner];
          }
          assert errors == before + [x.Contribution()];
          assert cur.PartsBelow() == [x.Contribution()] + x.PartsBelow();
          AppendAssoc(before, [x.Contribution()], x.PartsBelow());
          tmp := x.err;
          cur := x;
        case Foreign(text) =>
          errors := errors + [text];
          assert cur.PartsBelow() == [text];
          break;
      }
      assert errors == Parts();
      s := Join(errors, ": ");
    }

    /** Stacktrace(): one location per node of the chain, outermost first;
        a foreign error at the end adds none. */
    method Stacktrace() returns (st: seq<string>)
      requires Acyclic()
      ensures |st| == |Chain()|
      ensures forall i :: 0 <= i < |st| ==> st[i] == Location(Chain()[i].op)
    {
      st := [];
      var tmp := Own(this);
      ghost var done: seq<ErrorNode<V>> := [];
      while tmp.Own?
        invariant WellFounded(tmp)
        invariant done + CauseChain(tmp) == Chain()
        invariant |st| == |done|
        invariant forall i :: 0 <= i < |st| ==> st[i] == Location(done[i].op)
        decreases CauseRepr(tmp)
      {
        var x := tmp.node;
        assert CauseChain(tmp) == [x] + CauseChain(x.err);
        AppendAssoc(done, [x], CauseChain(x.err));
        st := st + [Location(x.op)];
        done := done + [x];
        tmp := x.err;
      }
    }

    /** StacktraceWithMessage(): the same walk, each entry naming the file
        before the package and ending with the node's message. */
    method StacktraceWithMessage() returns (st: seq<string>)
      requires Acyclic()
      ensures |st| == |Chain()|
      ensures forall i :: 0 <= i < |st| ==> st[i] == LocationWithMessage(Chain()[i].op, Chain()[i].message)
    {
      st := [];
      var tmp := Own(this);
      ghost var done: seq<ErrorNode<V>> := [];
      while tmp.Own?
        invariant WellFounded(tmp)
        invariant done + CauseChain(tmp) == Chain()
        invariant |st| == |done|
        invariant forall i :: 0 <= i < |st| ==> st[i] == LocationWithMessage(done[i].op, done[i].message)
        decreases CauseRepr(tmp)
      {
        var x := tmp.node;
        assert CauseChain(tmp) == [x] + CauseChain(x.err);
        AppendAssoc(done, [x], CauseChain(x.err));
        st := st + [LocationWithMessage(x.op, x.message)];
        done := done + [x];
        tmp := x.err;
      }
    }

    /** FormatStacktrace(), without colours and column alignment: a header,
        the chain section, the fields section when this node has fields,
        and a final newline. `order` is the order the map iteration happens
        to visit the keys in; `show` renders a field value as %v does. */
    method FormatStacktrace(order: seq<string>, show: V -> string) returns (st: string)
      requires Acyclic()
      requires forall i :: 0 <= i < |order| ==> order[i] in fields.m
      requires forall i, j :: 0 <= i < j < |order| ==> order[i] != order[j]
      requires |order| == |fields.m|
      ensures st == Header + Render(Own(this), true)
                  + (if |fields.m| > 0 then FieldsHeader + FieldLines(order, fields.m, show) else "")
                  + "\n"
    {
      st := Header;
      var section := WriteChain();
      st := st + section;
      var m := fields.m;
      if |m| > 0 {
        var buffer := WriteFieldLines(order, m, show);
        assert section == Render(Own(this), true) by {
          assert CauseRepr(Own(this)) == Repr;
        }
        Regroup(Header, section, FieldsHeader, buffer);
        st := st + FieldsHeader;
        st := st + buffer;
      } else {
        AppendNothing(st);
      }
      st := st + "\n";
    }

    /** The loop of FormatStacktrace that walks the chain from this node:
        one entry per node, a line break between entries, and the foreign
        error's text if the chain ends in one. */
    method WriteChain() returns (section: string)
      requires Acyclic()
      ensures section == Render(Own(this), true)
    {
      section := "";
      var tmp := Own(this);
      var isFirst := true;
      while !tmp.NoCause?
        invariant WellFounded(tmp)
        invariant section + Render(tmp, isFirst) == Render(Own(this), true)
        decreases CauseRepr(tmp)
      {
        ghost var before := section;
        match tmp
        case Own(x) =>
          ghost var sep := if x.err.NoCause? then "" else LineBreak;
          ghost var entry := Entry(x.op, x.message, isFirst);
          assert Render(tmp, isFirst) == entry + sep + Render(x.err, false);
          section := section + Entry(x.op, x.message, isFirst);
          isFirst := false;
          if !x.err.NoCause? {
            section := section + LineBreak;
          }
          assert section == before + entry + sep;
          Regroup(before, entry, sep, Render(x.err, false));
          tmp := x.err;
        case Foreign(text) =>
          section := section + text;
          break;
      }
    }

    /** WithMessage: replaces the message, returns the receiver. */
    method WithMessage(msg: string) returns (r: ErrorNode<V>)
      modifies this
      ensures r == this && message == msg
      ensures op == old(op) && kind == old(kind) && fields.m == old(fields.m)
    {
      message := msg;
      r := this;
    }

    /** WithField: sets one key of the (possibly shared) map, returns the receiver. */
    method WithField(key: string, value: V) returns (r: ErrorNode<V>)
      modifies fields
      ensures r == this && fields.m == old(fields.m)[key := value]
      ensures op == old(op) && kind == old(kind) && message == old(message)
    {
      fields.m := fields.m[key := value];
      r := this;
    }

    /** WithFields: copies every entry of `m` into the map, overwriting the
        keys it shares with it and keeping the others; returns the receiver. */
    method WithFields(m: map<string, V>) returns (r: ErrorNode<V>)
      modifies fields
      ensures r == this && fields.m == old(fields.m) + m
      ensures op == old(op) && kind == old(kind) && message == old(message)
    {
      var rest := m.Keys;
      while rest != {}
        invariant rest <= m.Keys
        invariant fields.m == old(fields.m) + (m - rest)
        decreases rest
      {
        var k :| k in rest;
        fields.m := fields.m[k := m[k]];
        rest := rest - {k};
      }
      r := this;
    }

    /** WithKind: replaces the kind, returns the receiver. */
    method WithKind(k: Kind) returns (r: ErrorNode<V>)
      modifies this
      ensures r == this && kind == k
      ensures op == old(op) && message == old(message) && fields.m == old(fields.m)
    {
      kind := k;
      r := this;
    }

    /** WithOpHere: replaces the call site by the one given, returns the receiver. */
    method WithOpHere(here: Operation) returns (r: ErrorNode<V>)
      modifies this
      ensures r == this && op == here
      ensures kind == old(kind) && message == old(message) && fields.m == old(fields.m)
    {
      op := here;
      r := this;
    }

    /** GetField: the value under `key` and whether it is there; an absent
        key gives the nil interface, None here. */
    method GetField(key: string) returns (value: Option<V>, ok: bool)
      ensures ok <==> key in fields.m
      ensures ok ==> value == Some(fields.m[key])
      ensures !ok ==> value == None
    {
      if key in fields.m {
        value, ok := Some(fields.m[key]), true;
      } else {
        value, ok := None, false;
      }
    }
  }

  /** New: a leaf with no cause, no kind and an empty map of its own. */
  method New<V>(op: Operation, message: string) returns (e: ErrorNode<V>)
    ensures fresh(e) && fresh(e.fields)
    ensures e.op == op && e.kind == KindNone && e.message == message
    ensures e.fields.m == map[] && e.err == NoCause
    ensures e.Acyclic() && e.Chain() == [e]
  {
    var fields := new FieldMap<V>();
    e := new ErrorNode(op, KindNone, message, fields, NoCause);
  }

  /** NewWithKind: New with the kind given. */
  method NewWithKind<V>(kind: Kind, op: Operation, message: string) returns (e: ErrorNode<V>)
    ensures fresh(e) && fresh(e.fields)
    ensures e.op == op && e.kind == kind && e.message == message
    ensures e.fields.m == map[] && e.err == NoCause
    ensures e.Acyclic() && e.Chain() == [e]
  {
    var fields := new FieldMap<V>();
    e := new ErrorNode(op, kind, message, fields, NoCause);
  }

  /** Wrap: a new node over `err`. Over one of this package's nodes it takes
      that node's kind and shares its map object; over nil or a foreign error
      it has no kind and a fresh empty map. */
  method Wrap<V>(err: Cause<V>, op: Operation, message: string) returns (e: ErrorNode<V>)
    requires WellFounded(err)
    ensures fresh(e)
    ensures e.op == op && e.message == message && e.err == err
    ensures err.Own? ==> e.kind == err.node.kind && e.fields == err.node.fields
    ensures !err.Own? ==> e.kind == KindNone && fresh(e.fields) && e.fields.m == map[]
    ensures e.Acyclic() && e.Chain() == [e] + CauseChain(err)
  {
    var fields := new FieldMap<V>();
    var kind := KindNone;
    if err.Own? {
      kind := err.node.kind;
      fields := err.node.fields;
    }
    e := new ErrorNode(op, kind, message, fields, err);
  }

  /** The "%s/%s.%s:%d" entry of Stacktrace: package/file.function:line. */
  function Location(op: Operation): (r: string)
    ensures op.pkg + "/" + op.file + "." <= r
    ensures var tail := ":" + Decimal(op.line); |r| >= |tail| && r[|r| - |tail|..] == tail
  {
    op.pkg + "/" + op.file + "." + op.funcName + ":" + Decimal(op.line)
  }

  /** The "%s/%s.%s:%d ; %s" entry of StacktraceWithMessage, whose first two
      arguments are the file and then the package. */
  function LocationWithMessage(op: Operation, message: string): (r: string)
    ensures r == Location(op.(pkg := op.file, file := op.pkg)) + " ; " + message
  {
    op.file + "/" + op.pkg + "." + op.funcName + ":" + Decimal(op.line) + " ; " + message
  }

  /** %q, without the escaping of special characters. */
  function Quote(s: string): string
  {
    "\"" + s + "\""
  }

  /** The opening of the block: a corner, a rule of 45 box-drawing dashes, the title. */
  const Header: string := "┌" + seq(45, _ => '─') + "\n│ DEBUG ERROR: "
  /** What separates two lines of the chain section. */
  const LineBreak: string := "\n│  "
  const FieldsHeader: string := "\n│\n│ FIELDS ATTACHED:\n"
  const Marker: string := "<- error happened here"

  /** One node's text in the chain section: the first node shows its quoted
      message and the marker, every later one an arrow and its message. */
  function Entry(op: Operation, message: string, first: bool): (r: string)
    ensures first ==> Quote(message) <= r && |r| >= |Marker| && r[|r| - |Marker|..] == Marker
    ensures !first ==> |r| >= |Quote(message)| && r[|r| - |Quote(message)|..] == Quote(message)
  {
    var at := "at " + op.file + ":" + Decimal(op.line) + " " + op.pkg + "." + op.funcName;
    if first then Quote(message) + LineBreak + at + " " + Marker
    else at + " => " + Quote(message)
  }

  /** The chain section as the FormatStacktrace loop writes it from `c` on. */
  ghost function Render<V>(c: Cause<V>, first: bool): string
    requires WellFounded(c)
    reads CauseRepr(c)
    decreases CauseRepr(c)
  {
    match c
    case NoCause => ""
    case Foreign(text) => text
    case Own(x) =>
      Entry(x.op, x.message, first) + (if x.err.NoCause? then "" else LineBreak) + Render(x.err, false)
  }

  /** One line of the fields section: the quoted key, a column break, the value. */
  function FieldLine<V>(key: string, value: V, show: V -> string): (r: string)
    ensures |r| >= 1 && r[|r| - 1] == '\n'
    ensures '\n' !in key && '\n' !in show(value) ==> '\n' !in r[..|r| - 1]
  {
    "│ " + Quote(key) + "\t" + show(value) + "\n"
  }

  /** The fields section's lines, one per key of `order`. */
  function FieldLines<V>(order: seq<string>, m: map<string, V>, show: V -> string): string
    requires forall i :: 0 <= i < |order| ==> order[i] in m
  {
    if order == [] then "" else FieldLine(order[0], m[order[0]], show) + FieldLines(order[1..], m, show)
  }

  /** The loop that writes one line per key, in iteration order, into the
      buffer of the fields section. */
  method WriteFieldLines<V>(order: seq<string>, m: map<string, V>, show: V -> string) returns (buffer: string)
    requires forall i :: 0 <= i < |order| ==> order[i] in m
    ensures buffer == FieldLines(order, m, show)
  {
    buffer := "";
    var i := 0;
    while i < |order|
      invariant 0 <= i <= |order|
      invariant buffer == FieldLines(order[..i], m, show)
    {
      FieldLinesSnoc(order[..i], order[i], m, show);
      assert order[..i + 1] == order[..i] + [order[i]];
      buffer := buffer + FieldLine(order[i], m[order[i]], show);
      i := i + 1;
    }
    assert order[..i] == order;
  }

  lemma {:induction false} FieldLinesSnoc<V>(order: seq<string>, k: string, m: map<string, V>, show: V -> string)
    requires forall i :: 0 <= i < |order| ==> order[i] in m
    requires k in m
    ensures FieldLines(order + [k], m, show) == FieldLines(order, m, show) + FieldLine(k, m[k], show)
  {
    if order != [] {
      assert (order + [k])[1..] == order[1..] + [k];
      FieldLinesSnoc(order[1..], k, m, show);
    }
  }
}
