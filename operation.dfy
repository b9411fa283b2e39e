/** The call-site record of an error node (the `operation` struct of
    errors.go) and the part of newOperation that splits a fully qualified Go
    symbol name into its package and function. The stack lookup that
    produces the symbol name, the file base name and the line is not part of
    this model: those three arrive as arguments. */
module Operations {
  import opened Strings

  datatype Operation = Operation(pkg: string, file: string, funcName: string, line: int)

  /** A segment that opens a method receiver, as in `(*Server)`. */
  predicate IsReceiver(segment: string)
  {
    |segment| > 0 && segment[0] == '('
  }

  /** The Go code indexes parts[pl-2] and then its first byte: both must exist. */
  predicate Splittable(name: string)
  {
    var parts := Split(name, '.');
    |parts| >= 2 && |parts[|parts| - 2]| > 0
  }

  /** newOperation, given what the runtime would report. The function is the
      last dot-separated segment, or `(Recv).Method` when the segment before
      it opens a receiver; the package is everything in front of it. */
  function NewOperation(name: string, file: string, line: int): (op: Operation)
    requires Splittable(name)
    ensures op.file == file && op.line == line
    ensures var parts := Split(name, '.'); var pl := |parts|;
      if IsReceiver(parts[pl - 2])
      then op.funcName == parts[pl - 2] + "." + parts[pl - 1]
      else op.funcName == parts[pl - 1] && '.' !in op.funcName
    ensures var parts := Split(name, '.');
      (|parts| >= 3 || !IsReceiver(parts[|parts| - 2])) ==> op.pkg + "." + op.funcName == name
  {
    var parts := Split(name, '.');
    var pl := |parts|;
    JoinSplit(name, '.');
    if parts[pl - 2][0] == '(' then
      LastTwoSegmentsRebuilt(parts);
      Operation(Join(parts[..pl - 2], "."), file, parts[pl - 2] + "." + parts[pl - 1], line)
    else
      LastSegmentRebuilt(parts);
      Operation(Join(parts[..pl - 1], "."), file, parts[pl - 1], line)
  }

  /** Cutting in front of the last segment and gluing back with a dot gives the whole. */
  lemma {:induction false} LastSegmentRebuilt(parts: seq<string>)
    requires |parts| >= 2
    ensures Join(parts[..|parts| - 1], ".") + "." + parts[|parts| - 1] == Join(parts, ".")
  {
    var n := |parts|;
    if n == 2 {
      assert parts[..1] == [parts[0]];
      assert parts[1..] == [parts[1]];
    } else {
      var tail := parts[1..];
      LastSegmentRebuilt(tail);
      var init := parts[..n - 1];
      assert init[1..] == tail[..n - 2];
      assert Join(init, ".") == parts[0] + "." + Join(tail[..n - 2], ".");
      AppendAssoc(parts[0] + ".", Join(tail[..n - 2], ".") + ".", parts[n - 1]);
    }
  }

  /** Cutting in front of the last two segments, when there is something in
      front of them, and gluing back with dots gives the whole. */
  lemma LastTwoSegmentsRebuilt(parts: seq<string>)
    requires |parts| >= 2
    ensures |parts| >= 3 ==>
      Join(parts[..|parts| - 2], ".") + "." + (parts[|parts| - 2] + "." + parts[|parts| - 1]) == Join(parts, ".")
  {
    var pl := |parts|;
    if pl >= 3 {
      var init := parts[..pl - 1];
      LastSegmentRebuilt(parts);
      LastSegmentRebuilt(init);
      assert init[..pl - 2] == parts[..pl - 2];
      assert init[pl - 2] == parts[pl - 2];
      var x := Join(parts[..pl - 2], ".") + ".";
      AppendAssoc(x, parts[pl - 2], ".");
      AppendAssoc(x, parts[pl - 2] + ".", parts[pl - 1]);
    }
  }

  /** Cutting a dot-joined list at any inner point and gluing the two halves
      back with a dot gives the whole. */
  lemma {:induction false} SymbolRebuilt(parts: seq<string>, cut: nat)
    requires 1 <= cut < |parts|
    ensures Join(parts[..cut], ".") + "." + Join(parts[cut..], ".") == Join(parts, ".")
  {
    if cut == 1 {
      assert parts[..1] == [parts[0]];
      assert parts[1..] == parts[cut..];
    } else {
      SymbolRebuilt(parts[1..], cut - 1);
      assert parts[1..][..cut - 1] == parts[..cut][1..];
      assert parts[1..][cut - 1..] == parts[cut..];
    }
  }

  /** A symbol assembled from dot-free segments splits back into those segments. */
  lemma SymbolSplit(front: seq<string>, back: seq<string>)
    requires |back| >= 1
    requires forall i :: 0 <= i < |front| ==> '.' !in front[i]
    requires forall i :: 0 <= i < |back| ==> '.' !in back[i]
    ensures Split(Join(front + back, "."), '.') == front + back
  {
    var parts := front + back;
    forall i | 0 <= i < |parts| ensures '.' !in parts[i] {
      if i >= |front| { assert parts[i] == back[i - |front|]; }
    }
    SplitJoin(parts, '.');
  }

  /** Parsing a plain function symbol `p1.p2...pn.F` gives back package `p1.p2...pn` and `F`. */
  lemma FunctionSymbolParsed(pkgParts: seq<string>, f: string, file: string, line: int)
    requires |pkgParts| >= 1 && !IsReceiver(pkgParts[|pkgParts| - 1]) && |pkgParts[|pkgParts| - 1]| > 0
    requires forall i :: 0 <= i < |pkgParts| ==> '.' !in pkgParts[i]
    requires '.' !in f
    ensures Splittable(Join(pkgParts + [f], "."))
    ensures NewOperation(Join(pkgParts + [f], "."), file, line) == Operation(Join(pkgParts, "."), file, f, line)
  {
    var parts := pkgParts + [f];
    SymbolSplit(pkgParts, [f]);
    assert parts[..|parts| - 1] == pkgParts;
  }

  /** Parsing a method symbol `p1...pn.(Recv).M` gives back package `p1...pn` and `(Recv).M`. */
  lemma MethodSymbolParsed(pkgParts: seq<string>, recv: string, m: string, file: string, line: int)
    requires |pkgParts| >= 1 && IsReceiver(recv)
    requires forall i :: 0 <= i < |pkgParts| ==> '.' !in pkgParts[i]
    requires '.' !in recv && '.' !in m
    ensures Splittable(Join(pkgParts + [recv, m], "."))
    ensures NewOperation(Join(pkgParts + [recv, m], "."), file, line)
         == Operation(Join(pkgParts, "."), file, recv + "." + m, line)
  {
    var parts := pkgParts + [recv, m];
    var name := Join(parts, ".");
    SymbolSplit(pkgParts, [recv, m]);
    assert parts[|parts| - 2] == recv && parts[|parts| - 1] == m;
    assert parts[..|parts| - 2] == pkgParts;
    assert Splittable(name);
    var op := NewOperation(name, file, line);
    assert op.funcName == recv + "." + m;
    assert op.pkg == Join(pkgParts, ".");
  }
}
