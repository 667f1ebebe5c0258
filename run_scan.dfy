/** Model of the bracket scanner `parse_block` of run_scan.py.

    The scanner walks a string from a starting cursor in one of four states.
    In state `Out` the only admissible character is `[`, which enters `In`;
    in state `In` a `[` starts a nested block (a recursive call one past it),
    a `]` ends the current block and every other character is added to the
    block's body. A character met in a state that does not admit it raises
    `InvalidState`; running out of input is not an error: the partial block
    is returned. */
module RunScan {

  /** `State = Enum("State", ["start", "in_", "out", "end"])`. */
  datatype State = Start | In | Out | End

  /** The exception `InvalidState(cursor, state, message)`. */
  datatype InvalidState = InvalidState(cursor: nat, state: State, message: string)

  /** A scanned block. The scanner never assigns `color` or `text`, which keep
      their empty defaults; `body` holds the characters of the block's own
      level, `children` the nested blocks in source order. */
  datatype Block = Block(color: string, text: string, body: string, children: seq<Block>)

  /** `Block()`: every field at its default. */
  const EmptyBlock := Block("", "", [], [])

  /** What `parse_block` returns, `(block, offset)`, or the exception it raises. */
  datatype ParseResult = Ok(block: Block, offset: nat) | Err(error: InvalidState)

  /** `make_error()`: the error carries the call's starting cursor and the current state. */
  function Error(cursor: nat, state: State): (e: InvalidState)
    ensures e.cursor == cursor && e.state == state && e.message == "Invalid state"
  {
    InvalidState(cursor, state, "Invalid state")
  }

  // ---------------------------------------------------------------------
  // The scanner as functions: Parse is one call of parse_block, Scan is its
  // while loop from `offset` on with the block built so far.
  // ---------------------------------------------------------------------

  function Parse(buf: string, cursor: nat := 0, state: State := Out): (r: ParseResult)
    ensures r.Ok? ==> cursor <= r.offset
    ensures r.Err? <==> cursor < |buf| && state != In && !(state == Out && buf[cursor] == '[')
    ensures r.Err? ==> r.error == Error(cursor, state)
    decreases |buf| - cursor, 1
  {
    Scan(buf, cursor, state, cursor, EmptyBlock)
  }

  function Scan(buf: string, cursor: nat, state: State, offset: nat, block: Block): (r: ParseResult)
    ensures r.Ok? ==> offset <= r.offset
    ensures r.Err? <==> offset < |buf| && state != In && !(state == Out && buf[offset] == '[')
    ensures r.Err? ==> r.error == Error(cursor, state)
    decreases |buf| - offset, 0
  {
    if offset >= |buf| then Ok(block, offset)
    else if buf[offset] == '[' then
      if state == Out then Scan(buf, cursor, In, offset + 1, block)
      else if state == In then
        match Parse(buf, offset + 1, In)
        case Err(e) => Err(e)
        case Ok(child, o) => Scan(buf, cursor, In, o + 1, block.(children := block.children + [child]))
      else Err(Error(cursor, state))
    else if buf[offset] == ']' then
      if state == In then Ok(block, offset) else Err(Error(cursor, state))
    else if state == In then Scan(buf, cursor, In, offset + 1, block.(body := block.body + [buf[offset]]))
    else Err(Error(cursor, state))
  }

  /** `parse_block(buffer, cursor, state)`: the while loop over `offset`, with the
      recursive call for a nested `[`. A nested call's exception propagates. */
  method ParseBlock(buf: string, cursor: nat := 0, state0: State := Out) returns (r: ParseResult)
    ensures r == Parse(buf, cursor, state0)
    ensures r.Err? <==> cursor < |buf| && state0 != In && !(state0 == Out && buf[cursor] == '[')
    ensures r.Ok? ==> cursor <= r.offset
    decreases |buf| - cursor
  {
    var state := state0;
    var offset := cursor;
    var block := EmptyBlock;
    while offset < |buf|
      invariant cursor <= offset
      invariant Scan(buf, cursor, state, offset, block) == Parse(buf, cursor, state0)
      decreases |buf| - offset
    {
      var ch := buf[offset];
      if ch == '[' {
        if state == Out {
          state := In;
        } else if state == In {
          var sub := ParseBlock(buf, offset + 1, In);
          if sub.Err? {
            return sub;
          }
          offset := sub.offset;
          block := block.(children := block.children + [sub.block]);
        } else {
          return Err(Error(cursor, state));
        }
      } else if ch == ']' {
        if state == In {
          return Ok(block, offset);
        } else {
          return Err(Error(cursor, state));
        }
      } else {
        if state == In {
          block := block.(body := block.body + [ch]);
        } else {
          return Err(Error(cursor, state));
        }
      }
      offset := offset + 1;
    }
    return Ok(block, offset);
  }

  // ---------------------------------------------------------------------
  // An independent description of a scan, by bracket depth over buf[i..j).
  // ---------------------------------------------------------------------

  /** How a character changes the bracket depth. */
  function Delta(ch: char): int
  {
    if ch == '[' then 1 else if ch == ']' then -1 else 0
  }

  /** Net bracket depth of buf[i..j): the number of `[` minus the number of `]`. */
  function Depth(buf: string, i: nat, j: nat): int
    requires i <= j <= |buf|
    decreases j - i
  {
    if i == j then 0 else Delta(buf[i]) + Depth(buf, i + 1, j)
  }

  /** No prefix of buf[i..j) closes more brackets than it opens. */
  ghost predicate NeverBelow(buf: string, i: nat, j: nat)
    requires i <= j <= |buf|
  {
    forall k :: i <= k <= j ==> Depth(buf, i, k) >= 0
  }

  /** The non-bracket characters of buf[i..j) that lie at running depth 0,
      when the running depth at i is d: a block's own text. */
  function Flat(buf: string, i: nat, j: nat, d: int): (s: string)
    requires i <= j <= |buf|
    ensures forall k :: 0 <= k < |s| ==> s[k] != '[' && s[k] != ']'
    decreases j - i
  {
    if i == j then []
    else (if d == 0 && Delta(buf[i]) == 0 then [buf[i]] else []) + Flat(buf, i + 1, j, d + Delta(buf[i]))
  }

  /** The positions in buf[i..j) of the `[` that open at running depth 0,
      when the running depth at i is d: where a block's children start. */
  function TopOpens(buf: string, i: nat, j: nat, d: int): (ps: seq<nat>)
    requires i <= j <= |buf|
    ensures forall k :: 0 <= k < |ps| ==> i <= ps[k] < j && buf[ps[k]] == '['
    decreases j - i
  {
    if i == j then []
    else (if d == 0 && buf[i] == '[' then [i] else []) + TopOpens(buf, i + 1, j, d + Delta(buf[i]))
  }

  /** The blocks scanned from one past each of the positions `ps`. */
  function ChildrenAt(buf: string, ps: seq<nat>): (cs: seq<Block>)
    ensures |cs| == |ps|
  {
    if ps == [] then [] else [Parse(buf, ps[0] + 1, In).block] + ChildrenAt(buf, ps[1..])
  }

  lemma {:induction false} ChildrenAtIndex(buf: string, ps: seq<nat>, k: nat)
    requires k < |ps|
    ensures ChildrenAt(buf, ps)[k] == Parse(buf, ps[k] + 1, In).block
  {
    if k > 0 {
      ChildrenAtIndex(buf, ps[1..], k - 1);
    }
  }

  lemma {:induction false} DepthSplit(buf: string, i: nat, m: nat, j: nat)
    requires i <= m <= j <= |buf|
    ensures Depth(buf, i, j) == Depth(buf, i, m) + Depth(buf, m, j)
    decreases m - i
  {
    if i < m {
      DepthSplit(buf, i + 1, m, j);
    }
  }

  /** Characters at running depth 1 or more contribute neither text nor child
      positions, so a stretch of such characters can be skipped. */
  lemma {:induction false} SkipNested(buf: string, i: nat, m: nat, j: nat, d: int)
    requires i <= m <= j <= |buf|
    requires forall k :: i <= k < m ==> d + Depth(buf, i, k) >= 1
    ensures Flat(buf, i, j, d) == Flat(buf, m, j, d + Depth(buf, i, m))
    ensures TopOpens(buf, i, j, d) == TopOpens(buf, m, j, d + Depth(buf, i, m))
    decreases m - i
  {
    if i < m {
      assert d + Depth(buf, i, i) >= 1;
      var i', d' := i + 1, d + Delta(buf[i]);
      forall k | i' <= k < m
        ensures d' + Depth(buf, i', k) >= 1
      {
        assert d + Depth(buf, i, k) >= 1;
      }
      SkipNested(buf, i', m, j, d');
    }
  }
  /** What the loop in state `In` started at offset p with the block built so
      far does: it stops at the `]` that matches the block (the first position
      where the depth would drop below zero), or runs out of input with the
      depth never below zero; the body gains exactly the depth-0 non-bracket
      characters and the children are the blocks scanned from each depth-0 `[`,
      in source order. On running out of input the returned offset exceeds the
      length by the number of nested blocks still open. */
  ghost predicate InSpec(buf: string, p: nat, block: Block, r: ParseResult)
    requires p <= |buf|
  {
    && r.Ok?
    && var e := if r.offset < |buf| then r.offset else |buf|;
       && p <= e
       && NeverBelow(buf, p, e)
       && (r.offset < |buf| ==> buf[r.offset] == ']' && Depth(buf, p, r.offset) == 0)
       && (r.offset >= |buf| ==> r.offset == |buf| + Depth(buf, p, |buf|))
       && r.block.color == block.color && r.block.text == block.text
       && r.block.body == block.body + Flat(buf, p, e, 0)
       && r.block.children == block.children + ChildrenAt(buf, TopOpens(buf, p, e, 0))
  }

  lemma {:induction false} ScanIn(buf: string, cursor: nat, p: nat, block: Block)
    requires p <= |buf|
    ensures InSpec(buf, p, block, Scan(buf, cursor, In, p, block))
    decreases |buf| - p, 1
  {
    if p == |buf| {
      assert Scan(buf, cursor, In, p, block) == Ok(block, p);
    } else if buf[p] == '[' {
      var child := Parse(buf, p + 1, In);
      ScanIn(buf, p + 1, p + 1, EmptyBlock);
      var block' := block.(children := block.children + [child.block]);
      var r := Scan(buf, cursor, In, child.offset + 1, block');
      assert Scan(buf, cursor, In, p, block) == r;
      if child.offset < |buf| {
        ScanIn(buf, cursor, child.offset + 1, block');
        ClosedChild(buf, p, child.block, child.offset, block, r);
      } else {
        assert r == Ok(block', child.offset + 1);
        TruncatedChild(buf, p, child.block, child.offset, block);
      }
    } else if buf[p] == ']' {
      assert Scan(buf, cursor, In, p, block) == Ok(block, p);
    } else {
      var block' := block.(body := block.body + [buf[p]]);
      var r := Scan(buf, cursor, In, p + 1, block');
      assert Scan(buf, cursor, In, p, block) == r;
      ScanIn(buf, cursor, p + 1, block');
      PlainChar(buf, p, block, r);
    }
  }

  /** A character other than a bracket at p is added to the body and the loop goes on at p + 1. */
  lemma PlainChar(buf: string, p: nat, block: Block, r: ParseResult)
    requires p < |buf| && buf[p] != '[' && buf[p] != ']'
    requires InSpec(buf, p + 1, block.(body := block.body + [buf[p]]), r)
    ensures InSpec(buf, p, block, r)
  {
    var e := if r.offset < |buf| then r.offset else |buf|;
    var q := p + 1;
    forall k | p < k <= e
      ensures Depth(buf, p, k) >= 0
    {
      assert Depth(buf, q, k) >= 0;
    }
    assert TopOpens(buf, p, e, 0) == TopOpens(buf, q, e, 0);
    assert Flat(buf, p, e, 0) == [buf[p]] + Flat(buf, q, e, 0);
    assert Depth(buf, p, e) == Depth(buf, q, e);
  }

  /** A nested `[` at p whose child closes at o1 inside the buffer: the
      child's text is nested one level deeper, so it adds nothing to this
      block's body or child positions, and the loop goes on at o1 + 1. */
  lemma ClosedChild(buf: string, p: nat, child: Block, o1: nat, block: Block, r: ParseResult)
    requires p < o1 < |buf| && buf[p] == '['
    requires Parse(buf, p + 1, In) == Ok(child, o1)
    requires InSpec(buf, p + 1, EmptyBlock, Ok(child, o1))
    requires InSpec(buf, o1 + 1, block.(children := block.children + [child]), r)
    ensures InSpec(buf, p, block, r)
  {
    var e := if r.offset < |buf| then r.offset else |buf|;
    ClosedChildDepth(buf, p, o1, e);
    ClosedChildText(buf, p, o1, e);
    ChildrenCons(buf, p, child, TopOpens(buf, o1 + 1, e, 0));
  }

  lemma ChildrenCons(buf: string, p: nat, child: Block, rest: seq<nat>)
    requires Parse(buf, p + 1, In).block == child
    ensures ChildrenAt(buf, [p] + rest) == [child] + ChildrenAt(buf, rest)
  {
    assert ([p] + rest)[1..] == rest;
  }

  /** Skipping the child p..o1: neither its text nor its nested `[` are this block's. */
  lemma ClosedChildText(buf: string, p: nat, o1: nat, e: nat)
    requires p < o1 < |buf| && o1 + 1 <= e <= |buf|
    requires buf[p] == '[' && buf[o1] == ']'
    requires NeverBelow(buf, p + 1, o1) && Depth(buf, p + 1, o1) == 0
    ensures Flat(buf, p, e, 0) == Flat(buf, o1 + 1, e, 0)
    ensures TopOpens(buf, p, e, 0) == [p] + TopOpens(buf, o1 + 1, e, 0)
  {
    var q := p + 1;
    forall k | q <= k < o1 + 1
      ensures 1 + Depth(buf, q, k) >= 1
    {
      assert Depth(buf, q, k) >= 0;
    }
    SkipNested(buf, q, o1 + 1, e, 1);
    DepthSplit(buf, q, o1, o1 + 1);
  }

  /** The depth facts of a child closed at o1 followed by the rest of the loop up to e. */
  lemma ClosedChildDepth(buf: string, p: nat, o1: nat, e: nat)
    requires p < o1 < |buf| && o1 + 1 <= e <= |buf|
    requires buf[p] == '[' && buf[o1] == ']'
    requires NeverBelow(buf, p + 1, o1) && Depth(buf, p + 1, o1) == 0
    requires NeverBelow(buf, o1 + 1, e)
    ensures Depth(buf, p, o1 + 1) == 0
    ensures NeverBelow(buf, p, e)
    ensures Depth(buf, p, e) == Depth(buf, o1 + 1, e)
  {
    var q := p + 1;
    DepthSplit(buf, q, o1, o1 + 1);
    assert Depth(buf, p, o1 + 1) == 1 + Depth(buf, q, o1 + 1);
    forall k | p <= k <= e
      ensures Depth(buf, p, k) >= 0
    {
      if p < k <= o1 {
        assert Depth(buf, p, k) == 1 + Depth(buf, q, k);
        assert Depth(buf, q, k) >= 0;
      } else if k > o1 + 1 {
        DepthSplit(buf, p, o1 + 1, k);
        assert Depth(buf, o1 + 1, k) >= 0;
      }
    }
    DepthSplit(buf, p, o1 + 1, e);
  }

  /** A nested `[` at p whose child runs out of input: the loop stops at
      once, one past the child's offset. */
  lemma TruncatedChild(buf: string, p: nat, child: Block, o1: nat, block: Block)
    requires p < |buf| <= o1 && buf[p] == '['
    requires Parse(buf, p + 1, In) == Ok(child, o1)
    requires InSpec(buf, p + 1, EmptyBlock, Ok(child, o1))
    ensures InSpec(buf, p, block, Ok(block.(children := block.children + [child]), o1 + 1))
  {
    TruncatedChildDepth(buf, p);
    ChildrenCons(buf, p, child, []);
  }

  /** The depth and text facts of a child opened at p that runs to the end of the input. */
  lemma TruncatedChildDepth(buf: string, p: nat)
    requires p < |buf| && buf[p] == '['
    requires NeverBelow(buf, p + 1, |buf|)
    ensures NeverBelow(buf, p, |buf|)
    ensures Depth(buf, p, |buf|) == 1 + Depth(buf, p + 1, |buf|)
    ensures TopOpens(buf, p, |buf|, 0) == [p]
    ensures Flat(buf, p, |buf|, 0) == []
  {
    var q := p + 1;
    forall k | p < k <= |buf|
      ensures Depth(buf, p, k) >= 0
    {
      assert Depth(buf, q, k) >= 0;
    }
    forall k | q <= k < |buf|
      ensures 1 + Depth(buf, q, k) >= 1
    {
      assert Depth(buf, q, k) >= 0;
    }
    SkipNested(buf, q, |buf|, |buf|, 1);
  }

  /** In state `In` the starting cursor only ever matters for an error, and
      that state raises none. */
  lemma {:induction false} ScanInCursor(buf: string, c1: nat, c2: nat, p: nat, block: Block)
    ensures Scan(buf, c1, In, p, block) == Scan(buf, c2, In, p, block)
    decreases |buf| - p
  {
    if p < |buf| {
      if buf[p] == '[' {
        var child := Parse(buf, p + 1, In);
        ScanInCursor(buf, c1, c2, child.offset + 1, block.(children := block.children + [child.block]));
      } else if buf[p] != ']' {
        ScanInCursor(buf, c1, c2, p + 1, block.(body := block.body + [buf[p]]));
      }
    }
  }

  /** A call in state `Out` whose first character is `[` scans exactly the
      block a call in state `In` one character later scans. */
  lemma OutOpensBlock(buf: string, c: nat)
    requires c < |buf| && buf[c] == '['
    ensures Parse(buf, c, Out) == Parse(buf, c + 1, In)
  {
    ScanInCursor(buf, c, c + 1, c + 1, EmptyBlock);
  }

  /** Every block of a tree, its own and its descendants', has a body free of brackets. */
  ghost predicate BracketFree(b: Block)
  {
    && (forall k :: 0 <= k < |b.body| ==> b.body[k] != '[' && b.body[k] != ']')
    && (forall c :: c in b.children ==> BracketFree(c))
  }

  lemma {:induction false} ParseInBracketFree(buf: string, c: nat)
    ensures BracketFree(Parse(buf, c, In).block)
    decreases |buf| - c
  {
    var b := Parse(buf, c, In).block;
    if c <= |buf| {
      ScanIn(buf, c, c, EmptyBlock);
      var r := Parse(buf, c, In);
      var e := if r.offset < |buf| then r.offset else |buf|;
      var ps := TopOpens(buf, c, e, 0);
      forall ch | ch in b.children
        ensures BracketFree(ch)
      {
        var k :| 0 <= k < |b.children| && b.children[k] == ch;
        ChildrenAtIndex(buf, ps, k);
        ParseInBracketFree(buf, ps[k] + 1);
      }
    }
  }

  /** Bodies never contain a bracket, in any block of any tree the scanner returns. */
  lemma ParsedBodiesBracketFree(buf: string, c: nat, state: State)
    requires Parse(buf, c, state).Ok?
    ensures BracketFree(Parse(buf, c, state).block)
  {
    if state == In {
      ParseInBracketFree(buf, c);
    } else if state == Out && c < |buf| {
      OutOpensBlock(buf, c);
      ParseInBracketFree(buf, c + 1);
    }
  }

  /** The outcome of a call in state `In`: the returned offset indexes the `]`
      that closes the block, or the input ran out with the block still open;
      the body is the block's own depth-0 text and the children are the blocks
      scanned from each depth-0 `[`. */
  lemma ParseInSpec(buf: string, c: nat)
    requires c <= |buf|
    ensures var r := Parse(buf, c, In);
            var e := if r.offset < |buf| then r.offset else |buf|;
            && r.Ok? && c <= e
            && NeverBelow(buf, c, e)
            && (r.offset < |buf| ==> buf[r.offset] == ']' && Depth(buf, c, r.offset) == 0)
            && (r.offset >= |buf| ==> r.offset == |buf| + Depth(buf, c, |buf|))
            && r.block.color == "" && r.block.text == ""
            && r.block.body == Flat(buf, c, e, 0)
            && r.block.children == ChildrenAt(buf, TopOpens(buf, c, e, 0))
  {
    ScanIn(buf, c, c, EmptyBlock);
  }

  /** The closing offset is unique: it is the first position at which the depth
      would drop below zero, so no earlier `]` can close the block. */
  lemma ClosesAtFirstUnmatched(buf: string, c: nat, k: nat)
    requires c <= k < |buf| && buf[k] == ']'
    requires Parse(buf, c, In).offset > k
    ensures Depth(buf, c, k) >= 1
  {
    ParseInSpec(buf, c);
    DepthSplit(buf, c, k, k + 1);
    assert Depth(buf, c, k + 1) >= 0;
  }

  // ---------------------------------------------------------------------
  // Truncated input: the offset returned past the end of the buffer.
  // ---------------------------------------------------------------------

  /** As written, a parent sets `offset` to its child's returned offset and
      then adds one, so each nested block left open at the end of the input
      pushes the returned offset one further past the end: "[[" scanned from
      0 in state `Out` returns offset 3 for a buffer of length 2. */
  lemma TruncatedNestedOvershoots()
    ensures Parse("[[", 0, Out) == Ok(Block("", "", [], [EmptyBlock]), 3)
    ensures Parse("[[", 0, Out).offset > |"[["|
  {
    var buf := "[[";
    assert Parse(buf, 2, In) == Ok(EmptyBlock, 2);
    assert Scan(buf, 0, In, 1, EmptyBlock) == Scan(buf, 0, In, 3, Block("", "", [], [EmptyBlock]));
  }

  /** The bounded variant: the scan of `parse_block` with the offset of a
      truncated scan reported as the length of the buffer, which is what a
      parent that stops as soon as its child ran out of input would return. */
  method ParseBlockBounded(buf: string, cursor: nat := 0, state: State := Out) returns (r: ParseResult)
    ensures r.Err? <==> cursor < |buf| && state != In && !(state == Out && buf[cursor] == '[')
    ensures r.Err? ==> r == Parse(buf, cursor, state)
    ensures r.Ok? ==> r.block == Parse(buf, cursor, state).block
    ensures r.Ok? && cursor <= |buf| ==> cursor <= r.offset <= |buf|
    ensures r.Ok? && |buf| < cursor ==> r.offset == cursor
    ensures r.Ok? && r.offset < |buf| ==> buf[r.offset] == ']' && Parse(buf, cursor, state).offset == r.offset
  {
    r := ParseBlock(buf, cursor, state);
    if r.Ok? && cursor <= |buf| {
      if state == In {
        ParseInSpec(buf, cursor);
      } else if state == Out && cursor < |buf| {
        OutOpensBlock(buf, cursor);
        ParseInSpec(buf, cursor + 1);
      }
      if r.offset > |buf| {
        r := r.(offset := |buf|);
      }
    }
  }

  /** A small well-formed input: text and a nested block at one level. */
  lemma NestedExample()
    ensures Parse("[ab[c]d]", 0, Out) == Ok(Block("", "", "abd", [Block("", "", "c", [])]), 7)
  {
    var buf := "[ab[c]d]";
    assert Parse(buf, 4, In) == Ok(Block("", "", "c", []), 5);
  }
}
