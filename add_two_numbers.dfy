/** DSA/LinkedLists/AddTwoNumbers.java: two numbers stored as linked lists
    of decimal digits, least significant first, are added digit by digit
    with a carry into a fresh list that hangs off a dummy head node. */
module AddTwoNumbers {
  import opened Common

  /** `ListNode`: a digit and the link to the next, more significant one.
      The digit is only ever set by the constructor. */
  class ListNode {
    const val: int
    var next: ListNode?

    constructor (val: int)
      ensures this.val == val && next == null
    {
      this.val := val;
      next := null;
    }
  }

  /** `nodes` are the nodes reached from `head` by following `next`, in
      order, and the last one ends the list. */
  predicate IsList(head: ListNode?, nodes: seq<ListNode>)
    reads set n | n in nodes
  {
    (if |nodes| == 0 then head == null else head == nodes[0]) && Linked(nodes)
  }

  /** The digits held by `nodes`, least significant first. */
  function Digits(nodes: seq<ListNode>): (ds: seq<int>)
    ensures |ds| == |nodes|
    ensures forall k :: 0 <= k < |nodes| ==> ds[k] == nodes[k].val
  {
    seq(|nodes|, k requires 0 <= k < |nodes| => nodes[k].val)
  }

  /** The digit of a list in the current column: its first digit, or 0
      once the list is exhausted, as for a `null` node. */
  function Head(ds: seq<int>): int
  {
    if |ds| == 0 then 0 else ds[0]
  }

  /** The rest of a digit list once its first digit is consumed; an
      exhausted list stays exhausted, as a `null` node does. */
  function Rest(ds: seq<int>): (r: seq<int>)
    ensures |r| == if |ds| == 0 then 0 else |ds| - 1
  {
    if |ds| == 0 then [] else ds[1..]
  }

  /** The first digit of a decimal list is a decimal digit and the rest
      is decimal too. */
  lemma DigitsRest(ds: seq<int>)
    requires AllDigits(ds)
    ensures 0 <= Head(ds) <= 9 && AllDigits(Rest(ds))
  {
  }

  /** The digits the carry loop writes when the lists still to be read
      hold `ds` and `es` and the carry is `carry`: a missing digit reads
      as 0, the column sum is split with Java's `/` and `%`, and the loop
      stops once both lists are exhausted and the carry is 0. */
  function AddDigits(ds: seq<int>, es: seq<int>, carry: int): seq<int>
    decreases |ds| + |es|, Abs(carry)
  {
    if |ds| == 0 && |es| == 0 && carry == 0 then []
    else
      var sum := Head(ds) + Head(es) + carry;
      [JavaRem10(sum)] + AddDigits(Rest(ds), Rest(es), JavaDiv10(sum))
  }

  /** One column of `AddDigits`, while there is something left to add:
      its digit followed by the digits of the rest. */
  lemma AddDigitsCons(ds: seq<int>, es: seq<int>, carry: int)
    requires !(|ds| == 0 && |es| == 0 && carry == 0)
    ensures AddDigits(ds, es, carry) ==
            [JavaRem10(Head(ds) + Head(es) + carry)] +
            AddDigits(Rest(ds), Rest(es), JavaDiv10(Head(ds) + Head(es) + carry))
  {
  }

  /** The value of a digit list is its first digit plus ten times the
      value of the rest. */
  lemma ValueCons(ds: seq<int>)
    ensures LittleEndianValue(ds) == Head(ds) + 10 * LittleEndianValue(Rest(ds))
  {
  }

  /** One column: the value of both lists and the carry is the written
      digit plus ten times the value of the rest of both lists and the
      next carry. */
  lemma ColumnValue(ds: seq<int>, es: seq<int>, carry: int)
    ensures LittleEndianValue(ds) + LittleEndianValue(es) + carry ==
            JavaRem10(Head(ds) + Head(es) + carry) +
            10 * (LittleEndianValue(Rest(ds)) + LittleEndianValue(Rest(es)) + JavaDiv10(Head(ds) + Head(es) + carry))
  {
    ValueCons(ds);
    ValueCons(es);
  }

  /** The written digits stand for the sum of both numbers and the carry. */
  lemma {:induction false} AddDigitsValue(ds: seq<int>, es: seq<int>, carry: int)
    ensures LittleEndianValue(AddDigits(ds, es, carry)) ==
            LittleEndianValue(ds) + LittleEndianValue(es) + carry
    decreases |ds| + |es|, Abs(carry)
  {
    if !(|ds| == 0 && |es| == 0 && carry == 0) {
      var sum := Head(ds) + Head(es) + carry;
      var written := AddDigits(ds, es, carry);
      var rest := AddDigits(Rest(ds), Rest(es), JavaDiv10(sum));
      assert written == [JavaRem10(sum)] + rest;
      AddDigitsValue(Rest(ds), Rest(es), JavaDiv10(sum));
      ColumnValue(ds, es, carry);
      ValueCons(written);
      assert Rest(written) == rest;
    }
  }

  /** A column of two decimal digits and a carry of 0 or 1 writes a
      decimal digit and carries 0 or 1. */
  lemma DecimalColumn(sum: int)
    requires 0 <= sum <= 19
    ensures JavaDiv10(sum) == (if sum >= 10 then 1 else 0)
    ensures JavaRem10(sum) == sum - 10 * JavaDiv10(sum)
  {
  }

  /** On decimal digits with a carry of 0 or 1, every written digit is
      decimal. */
  lemma {:induction false} AddDigitsDecimal(ds: seq<int>, es: seq<int>, carry: int)
    requires AllDigits(ds) && AllDigits(es) && 0 <= carry <= 1
    ensures AllDigits(AddDigits(ds, es, carry))
    decreases |ds| + |es|, carry
  {
    if !(|ds| == 0 && |es| == 0 && carry == 0) {
      var sum := Head(ds) + Head(es) + carry;
      DigitsRest(ds);
      DigitsRest(es);
      DecimalColumn(sum);
      AddDigitsDecimal(Rest(ds), Rest(es), JavaDiv10(sum));
      var rest := AddDigits(Rest(ds), Rest(es), JavaDiv10(sum));
      assert AddDigits(ds, es, carry) == [JavaRem10(sum)] + rest;
    }
  }

  /** The arithmetic of one more column: writing a digit `r` below `s`
      gives `total`, which reaches `10 * p` exactly when `s` reaches `p`;
      so a result one digit longer than that of the remaining `m` columns
      has `m + 1` digits, plus one when the total reaches `10 * p`. */
  lemma ShiftCompare(len: int, restLen: int, n: int, m: int, total: int, s: int, r: int, p: int)
    requires len == 1 + restLen && restLen == m + (if s >= p then 1 else 0) && n == m + 1
    requires total == r + 10 * s && 0 <= r <= 9
    ensures len == n + (if total >= 10 * p then 1 else 0)
  {
  }

  /** On decimal digits with a carry of 0 or 1 the result is as long as
      the longer list, plus one digit when the sum reaches the next power
      of ten. */
  lemma {:induction false} AddDigitsLength(ds: seq<int>, es: seq<int>, carry: int)
    requires AllDigits(ds) && AllDigits(es) && 0 <= carry <= 1
    ensures |AddDigits(ds, es, carry)| ==
            Max(|ds|, |es|) +
            (if LittleEndianValue(ds) + LittleEndianValue(es) + carry >= Pow10(Max(|ds|, |es|)) then 1 else 0)
    decreases |ds| + |es|
  {
    if |ds| == 0 && |es| == 0 {
      if carry == 1 {
        assert AddDigits(ds, es, carry) == [1] + AddDigits([], [], 0);
      }
    } else {
      var sum := Head(ds) + Head(es) + carry;
      DigitsRest(ds);
      DigitsRest(es);
      DecimalColumn(sum);
      AddDigitsLength(Rest(ds), Rest(es), JavaDiv10(sum));
      LengthColumn(ds, es, carry);
    }
  }

  /** The inductive step of `AddDigitsLength`: one more column adds one
      digit and one decimal place. */
  lemma LengthColumn(ds: seq<int>, es: seq<int>, carry: int)
    requires AllDigits(ds) && AllDigits(es) && 0 <= carry <= 1 && !(|ds| == 0 && |es| == 0)
    requires var c := JavaDiv10(Head(ds) + Head(es) + carry);
             |AddDigits(Rest(ds), Rest(es), c)| ==
             Max(|Rest(ds)|, |Rest(es)|) +
             (if LittleEndianValue(Rest(ds)) + LittleEndianValue(Rest(es)) + c >= Pow10(Max(|Rest(ds)|, |Rest(es)|)) then 1 else 0)
    ensures |AddDigits(ds, es, carry)| ==
            Max(|ds|, |es|) +
            (if LittleEndianValue(ds) + LittleEndianValue(es) + carry >= Pow10(Max(|ds|, |es|)) then 1 else 0)
  {
    var sum := Head(ds) + Head(es) + carry;
    DigitsRest(ds);
    DigitsRest(es);
    DecimalColumn(sum);
    ColumnValue(ds, es, carry);
    MaxRest(ds, es);
    PowStep(Max(|ds|, |es|), Max(|Rest(ds)|, |Rest(es)|));
    AddDigitsCons(ds, es, carry);
    ShiftCompare(|AddDigits(ds, es, carry)|, |AddDigits(Rest(ds), Rest(es), JavaDiv10(sum))|,
                 Max(|ds|, |es|), Max(|Rest(ds)|, |Rest(es)|),
                 LittleEndianValue(ds) + LittleEndianValue(es) + carry,
                 LittleEndianValue(Rest(ds)) + LittleEndianValue(Rest(es)) + JavaDiv10(sum),
                 JavaRem10(sum), Pow10(Max(|Rest(ds)|, |Rest(es)|)));
  }

  /** Consuming a column shortens the longer list by one. */
  lemma MaxRest(ds: seq<int>, es: seq<int>)
    requires !(|ds| == 0 && |es| == 0)
    ensures Max(|ds|, |es|) == Max(|Rest(ds)|, |Rest(es)|) + 1
  {
  }

  lemma PowStep(n: nat, m: nat)
    requires n == m + 1
    ensures Pow10(n) == 10 * Pow10(m)
  {
  }

  /** The carry loop, with `A[i..]` and `B[j..]` still to read and
      carry `carry`, writes exactly the digits `W[n..]`. */
  predicate Writes(A: seq<int>, B: seq<int>, i: nat, j: nat, carry: int, W: seq<int>, n: nat)
    decreases |W| - n
  {
    if i == |A| && j == |B| && carry == 0 then n == |W|
    else
      var sum := (if i < |A| then A[i] else 0) + (if j < |B| then B[j] else 0) + carry;
      n < |W| && W[n] == JavaRem10(sum) &&
      Writes(A, B, if i < |A| then i + 1 else i, if j < |B| then j + 1 else j, JavaDiv10(sum), W, n + 1)
  }

  /** One turn of the loop: the column sum of the next digits, 0 for an
      exhausted list, and the carry gives the next digit written and the
      next carry. */
  lemma WritesStep(A: seq<int>, B: seq<int>, i: nat, j: nat, carry: int, W: seq<int>, n: nat,
                   sum: int, i': nat, j': nat)
    requires i <= |A| && j <= |B| && n <= |W| && Writes(A, B, i, j, carry, W, n)
    requires !(i == |A| && j == |B| && carry == 0)
    requires sum == (if i < |A| then A[i] else 0) + (if j < |B| then B[j] else 0) + carry
    requires i' == (if i < |A| then i + 1 else i) && j' == (if j < |B| then j + 1 else j)
    ensures n < |W| && W[n] == JavaRem10(sum)
    ensures Writes(A, B, i', j', JavaDiv10(sum), W, n + 1)
  {
  }

  /** The converse of `WritesStep`: writing the digit of the current
      column and then what the next state writes is what this state
      writes. */
  lemma WritesCons(A: seq<int>, B: seq<int>, i: nat, j: nat, carry: int, W: seq<int>, n: nat,
                   sum: int, i': nat, j': nat)
    requires !(i == |A| && j == |B| && carry == 0)
    requires sum == (if i < |A| then A[i] else 0) + (if j < |B| then B[j] else 0) + carry
    requires i' == (if i < |A| then i + 1 else i) && j' == (if j < |B| then j + 1 else j)
    requires n < |W| && W[n] == JavaRem10(sum)
    requires Writes(A, B, i', j', JavaDiv10(sum), W, n + 1)
    ensures Writes(A, B, i, j, carry, W, n)
  {
  }

  /** Reading position `i` of `A`: the digit there, 0 past the end, and
      the suffix left to read. */
  lemma SliceStep(A: seq<int>, i: nat, i': nat)
    requires i <= |A| && i' == (if i < |A| then i + 1 else i)
    ensures Head(A[i..]) == (if i < |A| then A[i] else 0) && Rest(A[i..]) == A[i'..]
  {
  }

  /** A suffix that starts with `x` followed by `rest`. */
  lemma SuffixCons(W: seq<int>, n: nat, x: int, rest: seq<int>)
    requires n <= |W| && W[n..] == [x] + rest
    ensures n < |W| && W[n] == x && W[n + 1..] == rest
  {
    assert W[n..][0] == x;
    assert W[n + 1..] == W[n..][1..];
  }

  /** The loop from any state writes the digits `AddDigits` gives for the
      rest of both lists. */
  lemma {:induction false} AddDigitsWrites(A: seq<int>, B: seq<int>, i: nat, j: nat, carry: int,
                                           W: seq<int>, n: nat)
    requires i <= |A| && j <= |B| && n <= |W|
    requires W[n..] == AddDigits(A[i..], B[j..], carry)
    ensures Writes(A, B, i, j, carry, W, n)
    decreases |A| - i + |B| - j, Abs(carry)
  {
    if !(i == |A| && j == |B| && carry == 0) {
      var sum := (if i < |A| then A[i] else 0) + (if j < |B| then B[j] else 0) + carry;
      var i', j' := if i < |A| then i + 1 else i, if j < |B| then j + 1 else j;
      SliceStep(A, i, i');
      SliceStep(B, j, j');
      var rest := AddDigits(A[i'..], B[j'..], JavaDiv10(sum));
      assert AddDigits(A[i..], B[j..], carry) == [JavaRem10(sum)] + rest;
      SuffixCons(W, n, JavaRem10(sum), rest);
      AddDigitsWrites(A, B, i', j', JavaDiv10(sum), W, n + 1);
      WritesCons(A, B, i, j, carry, W, n, sum, i', j');
    }
  }

  /** What the written digits `ds` of two digit lists `A` and `B` mean:
      their value is the sum, and on decimal inputs they are decimal and
      as long as the longer input, plus one digit for a final carry. */
  lemma SumFacts(A: seq<int>, B: seq<int>, ds: seq<int>)
    requires ds == AddDigits(A, B, 0)
    ensures LittleEndianValue(ds) == LittleEndianValue(A) + LittleEndianValue(B)
    ensures AllDigits(A) && AllDigits(B) ==>
              AllDigits(ds) &&
              |ds| == Max(|A|, |B|) + (if LittleEndianValue(A) + LittleEndianValue(B) >= Pow10(Max(|A|, |B|)) then 1 else 0)
  {
    AddDigitsValue(A, B, 0);
    if AllDigits(A) && AllDigits(B) {
      AddDigitsDecimal(A, B, 0);
      AddDigitsLength(A, B, 0);
    }
  }

  /** The digits the sum of the lists `aNodes` and `bNodes` should have. */
  function SumDigits(aNodes: seq<ListNode>, bNodes: seq<ListNode>): seq<int>
  {
    AddDigits(Digits(aNodes), Digits(bNodes), 0)
  }

  /** `nodes` are linked by `next` in order and the last one ends the
      list. */
  predicate Linked(nodes: seq<ListNode>)
    reads set n | n in nodes
  {
    (forall k {:trigger nodes[k].next} :: 0 <= k < |nodes| - 1 ==> nodes[k].next == nodes[k + 1]) &&
    (|nodes| > 0 ==> nodes[|nodes| - 1].next == null)
  }

  /** `node` is the `i`-th node of `nodes`, or `null` once the list is
      exhausted. */
  predicate At(node: ListNode?, nodes: seq<ListNode>, i: nat)
  {
    i <= |nodes| && node == if i < |nodes| then nodes[i] else null
  }

  /** The list under construction: `chain` runs from the dummy head to
      `current`, and its `n` nodes after the head carry `W[..n]`. */
  predicate Chain(chain: seq<ListNode>, dummy: ListNode, current: ListNode, W: seq<int>, n: nat)
  {
    |chain| == n + 1 && n <= |W| && chain[0] == dummy && chain[n] == current &&
    forall k :: 1 <= k <= n ==> chain[k].val == W[k - 1]
  }

  /** A finished chain carrying all of `W` after its head is a list of the
      digits `W` hanging off the head. */
  lemma ResultList(chain: seq<ListNode>, dummy: ListNode, current: ListNode, W: seq<int>)
    requires Chain(chain, dummy, current, W, |W|) && Linked(chain)
    ensures IsList(dummy.next, chain[1..]) && Digits(chain[1..]) == W
  {
    var nodes := chain[1..];
    assert forall k :: 0 <= k < |nodes| ==> nodes[k] == chain[k + 1];
  }

  /** `current.next = new ListNode(v)`, `v` being the next digit `W[n]`:
      the list under construction grows by the new node, and the input
      lists, which do not hold `current`, stay as they are. */
  method Link(ghost aNodes: seq<ListNode>, ghost bNodes: seq<ListNode>, ghost W: seq<int>,
              current: ListNode, v: int, ghost chain: seq<ListNode>, ghost dummy: ListNode, ghost n: nat)
    returns (node: ListNode)
    requires Chain(chain, dummy, current, W, n) && Linked(chain) && n < |W| && v == W[n]
    requires Linked(aNodes) && Linked(bNodes) && current !in aNodes && current !in bNodes
    modifies current
    ensures Chain(chain + [node], dummy, node, W, n + 1) && Linked(chain + [node])
    ensures Linked(aNodes) && Linked(bNodes)
    ensures fresh(node) && node !in aNodes && node !in bNodes
  {
    node := new ListNode(v);
    current.next := node;
    var chain' := chain + [node];
    forall k | 0 <= k < |chain'| - 1 ensures chain'[k].next == chain'[k + 1] {
      if k < |chain| - 1 {
        assert chain[k].next == chain[k + 1];
      }
    }
  }

  /** One turn of the loop of `addTwoNumbers`: the digit of each list, 0
      past its end, and the carry are summed; the last digit of the sum
      goes into a new node after `current`, the rest is the next carry,
      and both lists move on unless exhausted. */
  method Step(ghost aNodes: seq<ListNode>, ghost bNodes: seq<ListNode>, ghost W: seq<int>,
              nodeA: ListNode?, nodeB: ListNode?, carry: int, current: ListNode,
              ghost chain: seq<ListNode>, ghost dummy: ListNode, ghost i: nat, ghost j: nat, ghost n: nat)
    returns (nodeA': ListNode?, nodeB': ListNode?, carry': int, node: ListNode, ghost i': nat, ghost j': nat)
    requires Linked(aNodes) && Linked(bNodes) && At(nodeA, aNodes, i) && At(nodeB, bNodes, j)
    requires nodeA != null || nodeB != null || carry != 0
    requires Chain(chain, dummy, current, W, n) && Linked(chain)
    requires current !in aNodes && current !in bNodes
    requires Writes(Digits(aNodes), Digits(bNodes), i, j, carry, W, n)
    modifies current
    ensures Linked(aNodes) && Linked(bNodes) && At(nodeA', aNodes, i') && At(nodeB', bNodes, j')
    ensures Chain(chain + [node], dummy, node, W, n + 1) && Linked(chain + [node])
    ensures fresh(node) && node !in aNodes && node !in bNodes
    ensures Writes(Digits(aNodes), Digits(bNodes), i', j', carry', W, n + 1)
    ensures (|aNodes| - i') + (|bNodes| - j') < (|aNodes| - i) + (|bNodes| - j) ||
            ((|aNodes| - i') + (|bNodes| - j') == (|aNodes| - i) + (|bNodes| - j) && Abs(carry') < Abs(carry))
  {
    var x := if nodeA != null then nodeA.val else 0;
    var y := if nodeB != null then nodeB.val else 0;
    var sum := x + y + carry;
    i', j' := if nodeA != null then i + 1 else i, if nodeB != null then j + 1 else j;
    WritesStep(Digits(aNodes), Digits(bNodes), i, j, carry, W, n, sum, i', j');
    carry' := JavaDiv10(sum);
    node := Link(aNodes, bNodes, W, current, JavaRem10(sum), chain, dummy, n);
    nodeA' := if nodeA != null then nodeA.next else null;
    nodeB' := if nodeB != null then nodeB.next else null;
  }

  /** `addTwoNumbers(a, b)`: `aNodes` and `bNodes` are the nodes of the
      two input lists and `rNodes` those of the result. The result is a
      list holding `AddDigits` of the inputs' digits with no carry in, so
      it stands for the sum of the two numbers; the inputs are not
      changed, since the method may only modify nodes it allocates. */
  method AddTwoNumbers(a: ListNode?, b: ListNode?, ghost aNodes: seq<ListNode>, ghost bNodes: seq<ListNode>)
    returns (r: ListNode?, ghost rNodes: seq<ListNode>)
    requires IsList(a, aNodes) && IsList(b, bNodes)
    ensures IsList(r, rNodes)
    ensures Digits(rNodes) == AddDigits(Digits(aNodes), Digits(bNodes), 0)
    ensures LittleEndianValue(Digits(rNodes)) ==
            LittleEndianValue(Digits(aNodes)) + LittleEndianValue(Digits(bNodes))
    ensures AllDigits(Digits(aNodes)) && AllDigits(Digits(bNodes)) ==>
              AllDigits(Digits(rNodes)) &&
              |rNodes| == Max(|aNodes|, |bNodes|) +
                          (if LittleEndianValue(Digits(aNodes)) + LittleEndianValue(Digits(bNodes)) >=
                              Pow10(Max(|aNodes|, |bNodes|)) then 1 else 0)
    ensures |aNodes| == 0 && |bNodes| == 0 ==> r == null
  {
    AddDigitsWrites(Digits(aNodes), Digits(bNodes), 0, 0, 0, SumDigits(aNodes, bNodes), 0);
    var dummyNode := new ListNode(0);
    var current := dummyNode;
    var carry := 0;
    ghost var chain: seq<ListNode> := [dummyNode];
    ghost var i, j, n := 0, 0, 0;
    var nodeA, nodeB := a, b;
    while nodeA != null || nodeB != null || carry != 0
      invariant Linked(aNodes) && Linked(bNodes) && At(nodeA, aNodes, i) && At(nodeB, bNodes, j)
      invariant Chain(chain, dummyNode, current, SumDigits(aNodes, bNodes), n) && Linked(chain)
      invariant fresh(current) && current !in aNodes && current !in bNodes
      invariant Writes(Digits(aNodes), Digits(bNodes), i, j, carry, SumDigits(aNodes, bNodes), n)
      decreases (|aNodes| - i) + (|bNodes| - j), Abs(carry)
    {
      ghost var i', j';
      var node;
      nodeA, nodeB, carry, node, i', j' := Step(aNodes, bNodes, SumDigits(aNodes, bNodes), nodeA, nodeB, carry, current,
                                                chain, dummyNode, i, j, n);
      current := node;
      chain := chain + [node];
      i, j, n := i', j', n + 1;
    }
    r, rNodes := dummyNode.next, chain[1..];
    ResultList(chain, dummyNode, current, SumDigits(aNodes, bNodes));
    SumFacts(Digits(aNodes), Digits(bNodes), SumDigits(aNodes, bNodes));
  }
}
