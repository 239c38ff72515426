/**
  The operational-transform engine: applying one edit to a text, and
  transforming two concurrent edits so that both replicas can apply the
  other's edit after their own.
 */
module OperationalTransform {
  import opened EditorTypes

  function Min(a: int, b: int): int { if a <= b then a else b }
  function Max(a: int, b: int): int { if a <= b then b else a }

  /** `text.slice(0, p)` for a non-negative `p`: an offset past the end means the end. */
  function Before(text: string, p: nat): string { text[..Min(p, |text|)] }

  /** `text.slice(p)` for a non-negative `p`. */
  function After(text: string, p: nat): string { text[Min(p, |text|)..] }

  // ---------------------------------------------------------------------------
  // Applying an operation
  // ---------------------------------------------------------------------------

  /** The text after `op`: an insert puts its text at its offset, a delete
      removes `Len()` characters from its offset, a retain changes nothing.
      Offsets past the end behave as the end (see ApplyShape). */
  function Apply(text: string, op: Operation): (r: string)
    ensures op.kind == Insert ==> |r| == |text| + |op.Text()|
    ensures op.kind == Delete ==> |r| <= |text|
    ensures op.kind == Delete && op.position + op.Len() <= |text| ==> |r| == |text| - op.Len()
    ensures op.kind == Retain ==> r == text
  {
    match op.kind
    case Insert => Before(text, op.position) + op.Text() + After(text, op.position)
    case Delete => Before(text, op.position) + After(text, op.position + op.Len())
    case Retain => text
  }

  /** What `Apply` keeps, adds and removes, for offsets in and out of range. */
  lemma ApplyShape(text: string, op: Operation)
    ensures op.kind == Insert && op.position <= |text| ==>
      var r := Apply(text, op);
      && |r| == |text| + |op.Text()|
      && r[..op.position] == text[..op.position]
      && r[op.position..op.position + |op.Text()|] == op.Text()
      && r[op.position + |op.Text()|..] == text[op.position..]
    ensures op.kind == Insert && op.position > |text| ==> Apply(text, op) == text + op.Text()
    ensures op.kind == Delete && op.position + op.Len() <= |text| ==>
      var r := Apply(text, op);
      && |r| == |text| - op.Len()
      && r[..op.position] == text[..op.position]
      && r[op.position..] == text[op.position + op.Len()..]
    ensures op.kind == Delete && op.position <= |text| < op.position + op.Len() ==>
      Apply(text, op) == text[..op.position]
    ensures op.kind == Delete && op.position >= |text| ==> Apply(text, op) == text
    ensures op.kind == Retain ==> Apply(text, op) == text
  {
    var r := Apply(text, op);
    var p := op.position;
    if op.kind == Insert && p <= |text| {
      assert r[..p] == text[..p];
      assert r[p..p + |op.Text()|] == op.Text();
      assert r[p + |op.Text()|..] == text[p..];
    } else if op.kind == Delete && p + op.Len() <= |text| {
      assert r[..p] == text[..p];
      assert r[p..] == text[p + op.Len()..];
    }
  }

  /** `op` addresses only offsets that exist in `text`. */
  predicate InRange(text: string, op: Operation) {
    match op.kind
    case Insert => op.position <= |text|
    case Delete => op.position + op.Len() <= |text|
    case Retain => true
  }

  /** A delete removes the character at offset `i`. */
  predicate Covers(op: Operation, i: nat) {
    op.kind == Delete && op.position <= i < op.position + op.Len()
  }

  /** Inserting `s` and then deleting `|s|` characters at the same offset
      gives back the original text. */
  lemma InsertThenDeleteRestores(text: string, p: nat, s: string, userId: string, timestamp: int)
    requires p <= |text|
    ensures
      var ins := Operation(Insert, p, Some(s), None, userId, timestamp);
      var del := Operation(Delete, p, None, Some(|s|), userId, timestamp);
      Apply(Apply(text, ins), del) == text
  {
    var u := text[..p] + s + text[p..];
    assert u[..p] == text[..p];
    assert u[p + |s|..] == text[p..];
    assert text[..p] + text[p..] == text;
  }

  /** An insert without content and a delete without length leave the text as
      it is, wherever they point. */
  lemma MissingPayloadIsNoOp(text: string, op: Operation)
    requires (op.kind == Insert && op.content.None?) || (op.kind == Delete && op.length.None?)
    ensures Apply(text, op) == text
  {
    var k := Min(op.position, |text|);
    assert text[..k] + text[k..] == text;
  }

  // ---------------------------------------------------------------------------
  // Transforming two concurrent operations
  // ---------------------------------------------------------------------------

  /** Two deletes whose ranges share an offset, or whose later one is empty
      and starts inside the earlier one: as in the engine, the earlier one's
      end is compared with the later one's start. */
  predicate DeletesOverlap(op1: Operation, op2: Operation) {
    if op1.position <= op2.position then op1.position + op1.Len() > op2.position
    else op2.position + op2.Len() > op1.position
  }

  /** `a` is `b` with at most its offset or length changed. */
  predicate SameOrigin(a: Operation, b: Operation) {
    a.kind == b.kind && a.content == b.content && a.userId == b.userId && a.timestamp == b.timestamp
  }

  /** Reference definition of where an operation at `mine.position` lands once
      `other` has been applied: after an insert that lies before it (at the
      same offset a delete always moves, an insert moves only if `other` goes
      first), back over a delete that lies wholly before it, and to a delete's
      start when it lies inside the deleted range. */
  function Shifted(mine: Operation, other: Operation, otherFirst: bool): nat {
    match other.kind
    case Retain => mine.position
    case Insert =>
      if other.position < mine.position
         || (other.position == mine.position && (mine.kind == Delete || otherFirst))
      then mine.position + |other.Text()|
      else mine.position
    case Delete =>
      if mine.position <= other.position then mine.position
      else if mine.position >= other.position + other.Len() then mine.position - other.Len()
      else other.position
  }

  /** `transform(op1, op2)`. A two-element result `[op1', op2']` holds `op1`
      rebased onto `op2` and `op2` rebased onto `op1`; overlapping deletes
      yield one merged delete; a retain on either side yields `[op1]`
      (see TransformShape). */
  function Transform(op1: Operation, op2: Operation): (r: seq<Operation>)
    ensures 1 <= |r| <= 2
  {
    if op1.kind == Retain || op2.kind == Retain then
      [op1]
    else if op1.kind == Insert && op2.kind == Insert then
      if op1.position <= op2.position then
        [op1, op2.(position := op2.position + |op1.Text()|)]
      else
        [op1.(position := op1.position + |op2.Text()|), op2]
    else if op1.kind == Insert && op2.kind == Delete then
      if op1.position <= op2.position then
        [op1, op2.(position := op2.position + |op1.Text()|)]
      else if op1.position >= op2.position + op2.Len() then
        [op1.(position := op1.position - op2.Len()), op2]
      else
        [op1.(position := op2.position), op2]
    else if op1.kind == Delete && op2.kind == Insert then
      if op2.position <= op1.position then
        [op1.(position := op1.position + |op2.Text()|), op2]
      else if op2.position >= op1.position + op1.Len() then
        [op1, op2.(position := op2.position - op1.Len())]
      else
        [op1, op2.(position := op1.position)]
    else if op1.position <= op2.position then
      var op1End := op1.position + op1.Len();
      if op1End <= op2.position then
        [op1, op2.(position := op2.position - op1.Len())]
      else
        [op1.(length := Some(Max(op1End, op2.position + op2.Len()) - op1.position))]
    else
      var op2End := op2.position + op2.Len();
      if op2End <= op1.position then
        [op1.(position := op1.position - op2.Len()), op2]
      else
        [op2.(length := Some(Max(op2End, op1.position + op1.Len()) - op2.position))]
  }

  /** What `transform` returns: `[op1]` when either operand is a retain; one
      merged delete exactly when both are overlapping deletes, starting at the
      smaller start and reaching the larger end; otherwise both operands, each
      moved by `Shifted` past the other, with `op1` winning ties between
      inserts. Every element keeps an operand's kind, content, user id and
      timestamp. */
  lemma TransformShape(op1: Operation, op2: Operation)
    ensures var r := Transform(op1, op2);
      && (op1.kind == Retain || op2.kind == Retain ==> r == [op1])
      && (|r| == 1 <==>
            op1.kind == Retain || op2.kind == Retain
            || (op1.kind == Delete && op2.kind == Delete && DeletesOverlap(op1, op2)))
      && (|r| == 2 ==>
            && r[0] == op1.(position := Shifted(op1, op2, false))
            && r[1] == op2.(position := Shifted(op2, op1, true)))
      && (|r| == 1 && op1.kind == Delete && op2.kind == Delete ==>
            && SameOrigin(r[0], if op1.position <= op2.position then op1 else op2)
            && r[0].position == Min(op1.position, op2.position)
            && r[0].Len() == Max(op1.position + op1.Len(), op2.position + op2.Len()) - Min(op1.position, op2.position))
      && (forall k :: 0 <= k < |r| ==> SameOrigin(r[k], op1) || SameOrigin(r[k], op2))
  {
    var r := Transform(op1, op2);
    match (op1.kind, op2.kind)
    case (Delete, Delete) =>
      if DeletesOverlap(op1, op2) {
        if op1.position <= op2.position {
          assert r == [op1.(length := Some(Max(op1.position + op1.Len(), op2.position + op2.Len()) - op1.position))];
        } else {
          assert r == [op2.(length := Some(Max(op2.position + op2.Len(), op1.position + op1.Len()) - op2.position))];
        }
      } else {
        assert |r| == 2;
      }
    case _ =>
  }

  /** An insert inside the range of a concurrent delete: the one case the
      engine does not reconcile. */
  predicate InsertInsideDelete(op1: Operation, op2: Operation) {
    || (op1.kind == Insert && op2.kind == Delete && op2.position < op1.position < op2.position + op2.Len())
    || (op1.kind == Delete && op2.kind == Insert && op1.position < op2.position < op1.position + op1.Len())
  }

  /** An in-range insert splits the text at its position. */
  lemma ApplyInsertInRange(text: string, op: Operation)
    requires op.kind == Insert && op.position <= |text|
    ensures Apply(text, op) == text[..op.position] + op.Text() + text[op.position..]
  {
  }

  /** An in-range delete cuts its range out of the text. */
  lemma ApplyDeleteInRange(text: string, op: Operation)
    requires op.kind == Delete && op.position + op.Len() <= |text|
    ensures Apply(text, op) == text[..op.position] + text[op.position + op.Len()..]
  {
  }

  // Commutation of in-range edits. Each lemma below applies the second edit
  // to the text the first one left, and names the text both orders reach.

  lemma LaterInsertAfterInsert(text: string, u: string, a: Operation, b: Operation)
    requires a.kind == Insert && b.kind == Insert
    requires a.position <= b.position <= |text|
    requires u == text[..a.position] + a.Text() + text[a.position..]
    ensures Apply(u, b.(position := b.position + |a.Text()|)) ==
      text[..a.position] + a.Text() + text[a.position..b.position] + b.Text() + text[b.position..]
  {
    var p1, c1, p2 := a.position, a.Text(), b.position;
    ApplyInsertInRange(u, b.(position := p2 + |c1|));
    assert u[..p2 + |c1|] == text[..p1] + c1 + text[p1..p2];
    assert u[p2 + |c1|..] == text[p2..];
  }

  lemma EarlierInsertAfterInsert(text: string, v: string, a: Operation, b: Operation)
    requires a.kind == Insert && b.kind == Insert
    requires a.position <= b.position <= |text|
    requires v == text[..b.position] + b.Text() + text[b.position..]
    ensures Apply(v, a) ==
      text[..a.position] + a.Text() + text[a.position..b.position] + b.Text() + text[b.position..]
  {
    var p1, p2 := a.position, b.position;
    ApplyInsertInRange(v, a);
    assert v[..p1] == text[..p1];
    assert v[p1..] == text[p1..p2] + b.Text() + text[p2..];
  }

  lemma DeleteAfterEarlierInsert(text: string, u: string, ins: Operation, del: Operation)
    requires ins.kind == Insert && del.kind == Delete
    requires ins.position <= del.position && del.position + del.Len() <= |text|
    requires u == text[..ins.position] + ins.Text() + text[ins.position..]
    ensures Apply(u, del.(position := del.position + |ins.Text()|)) ==
      text[..ins.position] + ins.Text() + text[ins.position..del.position] + text[del.position + del.Len()..]
  {
    var p1, c, p2, n := ins.position, ins.Text(), del.position, del.Len();
    ApplyDeleteInRange(u, del.(position := p2 + |c|));
    assert u[..p2 + |c|] == text[..p1] + c + text[p1..p2];
    assert u[p2 + |c| + n..] == text[p2 + n..];
  }

  lemma InsertAfterLaterDelete(text: string, v: string, ins: Operation, del: Operation)
    requires ins.kind == Insert && del.kind == Delete
    requires ins.position <= del.position && del.position + del.Len() <= |text|
    requires v == text[..del.position] + text[del.position + del.Len()..]
    ensures Apply(v, ins) ==
      text[..ins.position] + ins.Text() + text[ins.position..del.position] + text[del.position + del.Len()..]
  {
    var p1, p2, n := ins.position, del.position, del.Len();
    ApplyInsertInRange(v, ins);
    assert v[..p1] == text[..p1];
    assert v[p1..] == text[p1..p2] + text[p2 + n..];
  }

  lemma DeleteAfterLaterInsert(text: string, u: string, ins: Operation, del: Operation)
    requires ins.kind == Insert && del.kind == Delete
    requires del.position + del.Len() <= ins.position <= |text|
    requires u == text[..ins.position] + ins.Text() + text[ins.position..]
    ensures Apply(u, del) ==
      text[..del.position] + text[del.position + del.Len()..ins.position] + ins.Text() + text[ins.position..]
  {
    var p1, c, p2, n := ins.position, ins.Text(), del.position, del.Len();
    ApplyDeleteInRange(u, del);
    assert u[..p2] == text[..p2];
    assert u[p2 + n..] == text[p2 + n..p1] + c + text[p1..];
  }

  lemma InsertAfterEarlierDelete(text: string, v: string, ins: Operation, del: Operation)
    requires ins.kind == Insert && del.kind == Delete
    requires del.position + del.Len() <= ins.position <= |text|
    requires v == text[..del.position] + text[del.position + del.Len()..]
    ensures Apply(v, ins.(position := ins.position - del.Len())) ==
      text[..del.position] + text[del.position + del.Len()..ins.position] + ins.Text() + text[ins.position..]
  {
    var p1, p2, n := ins.position, del.position, del.Len();
    ApplyInsertInRange(v, ins.(position := p1 - n));
    assert v[..p1 - n] == text[..p2] + text[p2 + n..p1];
    assert v[p1 - n..] == text[p1..];
  }

  lemma LaterDeleteAfterDelete(text: string, u: string, a: Operation, b: Operation)
    requires a.kind == Delete && b.kind == Delete
    requires a.position + a.Len() <= b.position && b.position + b.Len() <= |text|
    requires u == text[..a.position] + text[a.position + a.Len()..]
    ensures Apply(u, b.(position := b.position - a.Len())) ==
      text[..a.position] + text[a.position + a.Len()..b.position] + text[b.position + b.Len()..]
  {
    var p1, n1, p2, n2 := a.position, a.Len(), b.position, b.Len();
    ApplyDeleteInRange(u, b.(position := p2 - n1));
    assert u[..p2 - n1] == text[..p1] + text[p1 + n1..p2];
    assert u[p2 - n1 + n2..] == text[p2 + n2..];
  }

  lemma EarlierDeleteAfterDelete(text: string, v: string, a: Operation, b: Operation)
    requires a.kind == Delete && b.kind == Delete
    requires a.position + a.Len() <= b.position && b.position + b.Len() <= |text|
    requires v == text[..b.position] + text[b.position + b.Len()..]
    ensures Apply(v, a) ==
      text[..a.position] + text[a.position + a.Len()..b.position] + text[b.position + b.Len()..]
  {
    var p1, n1, p2, n2 := a.position, a.Len(), b.position, b.Len();
    ApplyDeleteInRange(v, a);
    assert v[..p1] == text[..p1];
    assert v[p1 + n1..] == text[p1 + n1..p2] + text[p2 + n2..];
  }

  /** Two in-range inserts commute once the later-placed one is moved
      forward by the earlier one's length. */
  lemma OrderedInsertsCommute(text: string, a: Operation, b: Operation)
    requires a.kind == Insert && b.kind == Insert
    requires a.position <= b.position <= |text|
    ensures Apply(Apply(text, a), b.(position := b.position + |a.Text()|)) == Apply(Apply(text, b), a)
  {
    ApplyInsertInRange(text, a);
    LaterInsertAfterInsert(text, Apply(text, a), a, b);
    ApplyInsertInRange(text, b);
    EarlierInsertAfterInsert(text, Apply(text, b), a, b);
  }

  lemma InsertsConverge(text: string, op1: Operation, op2: Operation)
    requires op1.kind == Insert && op2.kind == Insert
    requires op1.position <= |text| && op2.position <= |text|
    ensures
      var r := Transform(op1, op2);
      Apply(Apply(text, op1), r[1]) == Apply(Apply(text, op2), r[0])
  {
    if op1.position <= op2.position {
      assert Transform(op1, op2) == [op1, op2.(position := op2.position + |op1.Text()|)];
      OrderedInsertsCommute(text, op1, op2);
    } else {
      assert Transform(op1, op2) == [op1.(position := op1.position + |op2.Text()|), op2];
      OrderedInsertsCommute(text, op2, op1);
    }
  }

  /** An insert at or before an in-range delete commutes with it once the
      delete is moved forward by the inserted length. */
  lemma InsertBeforeDeleteConverges(text: string, ins: Operation, del: Operation)
    requires ins.kind == Insert && del.kind == Delete
    requires ins.position <= del.position && del.position + del.Len() <= |text|
    ensures Apply(Apply(text, ins), del.(position := del.position + |ins.Text()|)) == Apply(Apply(text, del), ins)
  {
    ApplyInsertInRange(text, ins);
    DeleteAfterEarlierInsert(text, Apply(text, ins), ins, del);
    ApplyDeleteInRange(text, del);
    InsertAfterLaterDelete(text, Apply(text, del), ins, del);
  }

  /** An insert at or after the end of an in-range delete commutes with it
      once the insert is moved back by the deleted length. */
  lemma InsertAfterDeleteConverges(text: string, ins: Operation, del: Operation)
    requires ins.kind == Insert && del.kind == Delete
    requires del.position + del.Len() <= ins.position <= |text|
    ensures Apply(Apply(text, ins), del) == Apply(Apply(text, del), ins.(position := ins.position - del.Len()))
  {
    ApplyInsertInRange(text, ins);
    DeleteAfterLaterInsert(text, Apply(text, ins), ins, del);
    ApplyDeleteInRange(text, del);
    InsertAfterEarlierDelete(text, Apply(text, del), ins, del);
  }

  lemma InsertDeleteConverge(text: string, op1: Operation, op2: Operation)
    requires op1.kind == Insert && op2.kind == Delete
    requires op1.position <= |text| && op2.position + op2.Len() <= |text|
    requires !(op2.position < op1.position < op2.position + op2.Len())
    ensures
      var r := Transform(op1, op2);
      Apply(Apply(text, op1), r[1]) == Apply(Apply(text, op2), r[0])
  {
    if op1.position <= op2.position {
      assert Transform(op1, op2) == [op1, op2.(position := op2.position + |op1.Text()|)];
      InsertBeforeDeleteConverges(text, op1, op2);
    } else {
      assert Transform(op1, op2) == [op1.(position := op1.position - op2.Len()), op2];
      InsertAfterDeleteConverges(text, op1, op2);
    }
  }

  lemma DeleteInsertConverge(text: string, op1: Operation, op2: Operation)
    requires op1.kind == Delete && op2.kind == Insert
    requires op1.position + op1.Len() <= |text| && op2.position <= |text|
    requires !(op1.position < op2.position < op1.position + op1.Len())
    ensures
      var r := Transform(op1, op2);
      Apply(Apply(text, op1), r[1]) == Apply(Apply(text, op2), r[0])
  {
    if op2.position <= op1.position {
      assert Transform(op1, op2) == [op1.(position := op1.position + |op2.Text()|), op2];
      InsertBeforeDeleteConverges(text, op2, op1);
    } else {
      assert Transform(op1, op2) == [op1, op2.(position := op2.position - op1.Len())];
      InsertAfterDeleteConverges(text, op2, op1);
    }
  }

  lemma DisjointDeletesCommute(text: string, a: Operation, b: Operation)
    requires a.kind == Delete && b.kind == Delete
    requires a.position + a.Len() <= b.position && b.position + b.Len() <= |text|
    ensures Apply(Apply(text, a), b.(position := b.position - a.Len())) == Apply(Apply(text, b), a)
  {
    ApplyDeleteInRange(text, a);
    LaterDeleteAfterDelete(text, Apply(text, a), a, b);
    ApplyDeleteInRange(text, b);
    EarlierDeleteAfterDelete(text, Apply(text, b), a, b);
  }

  lemma DeletesConverge(text: string, op1: Operation, op2: Operation)
    requires op1.kind == Delete && op2.kind == Delete
    requires op1.position + op1.Len() <= |text| && op2.position + op2.Len() <= |text|
    requires !DeletesOverlap(op1, op2)
    ensures
      var r := Transform(op1, op2);
      Apply(Apply(text, op1), r[1]) == Apply(Apply(text, op2), r[0])
  {
    if op1.position <= op2.position {
      assert Transform(op1, op2) == [op1, op2.(position := op2.position - op1.Len())];
      DisjointDeletesCommute(text, op1, op2);
    } else {
      assert Transform(op1, op2) == [op1.(position := op1.position - op2.Len()), op2];
      DisjointDeletesCommute(text, op2, op1);
    }
  }

  /** Convergence: when `transform` yields a pair, applying `op1` then the
      rebased `op2` gives the same text as applying `op2` then the rebased
      `op1` -- for in-range operations, except an insert strictly inside a
      concurrent delete (see InsertInsideDeleteDiverges). */
  lemma Convergence(text: string, op1: Operation, op2: Operation)
    requires InRange(text, op1) && InRange(text, op2)
    requires !InsertInsideDelete(op1, op2)
    ensures
      var r := Transform(op1, op2);
      |r| == 2 ==> Apply(Apply(text, op1), r[1]) == Apply(Apply(text, op2), r[0])
  {
    match (op1.kind, op2.kind)
    case (Insert, Insert) => InsertsConverge(text, op1, op2);
    case (Insert, Delete) => InsertDeleteConverge(text, op1, op2);
    case (Delete, Insert) => DeleteInsertConverge(text, op1, op2);
    case (Delete, Delete) =>
      if !DeletesOverlap(op1, op2) {
        DeletesConverge(text, op1, op2);
      }
    case _ =>
  }

  /** Counterexample for an insert strictly inside a later delete's range
      (the insert is moved to the delete's start, the delete is kept): on
      "abc", inserting "X" at 2 against deleting two characters at 1 leaves
      "ac" on one replica (the inserted "X" is deleted with "b") and "aX" on
      the other (the "c" is deleted instead). */
  lemma InsertInsideDeleteDiverges()
    ensures
      var ins := Operation(Insert, 2, Some("X"), None, "u1", 0);
      var del := Operation(Delete, 1, None, Some(2), "u2", 0);
      var r := Transform(ins, del);
      && InsertInsideDelete(ins, del)
      && Apply(Apply("abc", ins), r[1]) == "ac"
      && Apply(Apply("abc", del), r[0]) == "aX"
  {
    assert Apply("abc", Operation(Insert, 2, Some("X"), None, "u1", 0)) == "abXc";
  }

  /** The same counterexample with the delete as the first operand. */
  lemma DeleteAroundInsertDiverges()
    ensures
      var del := Operation(Delete, 1, None, Some(2), "u1", 0);
      var ins := Operation(Insert, 2, Some("X"), None, "u2", 0);
      var r := Transform(del, ins);
      && InsertInsideDelete(del, ins)
      && Apply(Apply("abc", del), r[1]) == "aX"
      && Apply(Apply("abc", ins), r[0]) == "ac"
  {
    assert Apply("abc", Operation(Insert, 2, Some("X"), None, "u2", 0)) == "abXc";
  }

  /** Overlapping deletes merge into one delete that removes exactly the
      offsets removed by either, so the base text loses the union of both
      ranges. */
  lemma MergedDeleteCoversUnion(text: string, op1: Operation, op2: Operation)
    requires op1.kind == Delete && op2.kind == Delete
    requires InRange(text, op1) && InRange(text, op2)
    requires DeletesOverlap(op1, op2)
    ensures |Transform(op1, op2)| == 1
    ensures forall i: nat :: Covers(Transform(op1, op2)[0], i) <==> Covers(op1, i) || Covers(op2, i)
    ensures
      var lo := Min(op1.position, op2.position);
      var hi := Max(op1.position + op1.Len(), op2.position + op2.Len());
      Apply(text, Transform(op1, op2)[0]) == text[..lo] + text[hi..]
  {
  }

  /** Deleting "bcd" and "cde" from "abcdef", in either operand order, merges
      into one delete that leaves "af". */
  lemma MergedDeleteExample()
    ensures
      var a := Operation(Delete, 1, None, Some(3), "u1", 0);
      var b := Operation(Delete, 2, None, Some(3), "u2", 0);
      && Transform(a, b) == [a.(length := Some(4))]
      && Transform(b, a) == [a.(length := Some(4))]
      && Apply("abcdef", Transform(a, b)[0]) == "af"
      && Apply("abcdef", Transform(b, a)[0]) == "af"
  {
  }

  /** Two inserts at the same offset: the first operand's text ends up first
      on both replicas. */
  lemma EqualInsertsFavourFirst(text: string, op1: Operation, op2: Operation)
    requires op1.kind == Insert && op2.kind == Insert
    requires op1.position == op2.position <= |text|
    ensures
      var p := op1.position;
      var r := Transform(op1, op2);
      && Apply(Apply(text, op1), r[1]) == text[..p] + op1.Text() + op2.Text() + text[p..]
      && Apply(Apply(text, op2), r[0]) == text[..p] + op1.Text() + op2.Text() + text[p..]
  {
    var p, c1 := op1.position, op1.Text();
    var moved := op2.(position := p + |c1|);
    assert Transform(op1, op2) == [op1, moved];
    OrderedInsertsCommute(text, op1, op2);
    var u := text[..p] + c1 + text[p..];
    ApplyInsertInRange(text, op1);
    ApplyInsertInRange(u, moved);
    assert u[..p + |c1|] == text[..p] + c1;
    assert u[p + |c1|..] == text[p..];
  }

  /** On "ac", "b" and "d" both inserted at 1 converge to "abdc". */
  lemma EqualInsertsExample()
    ensures
      var a := Operation(Insert, 1, Some("b"), None, "u1", 0);
      var b := Operation(Insert, 1, Some("d"), None, "u2", 0);
      var r := Transform(a, b);
      && r == [a, b.(position := 2)]
      && Apply(Apply("ac", a), r[1]) == "abdc"
      && Apply(Apply("ac", b), r[0]) == "abdc"
  {
    var a := Operation(Insert, 1, Some("b"), None, "u1", 0);
    var b := Operation(Insert, 1, Some("d"), None, "u2", 0);
    EqualInsertsFavourFirst("ac", a, b);
  }
}
