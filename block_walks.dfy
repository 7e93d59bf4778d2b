/** The walk over nested blocks that several semantic checks share: a block's own
    fields, then, statement by statement, the blocks each statement holds
    (`Statement.getBlocks()`), each walked the same way. */
module BlockWalks {
  import opened Ast

  /** Every field declared in `b` or in a block nested in it, in walk order. */
  function AllFields(b: Block): seq<FieldDescriptor>
    decreases b, |b.statements| + 1
  {
    WalkedFields(b, |b.statements|)
  }

  /** The fields the walk has met once the first `i` statements of `b` are done: the
      block's own first. */
  function WalkedFields(b: Block, i: nat): seq<FieldDescriptor>
    requires i <= |b.statements|
    decreases b, i
  {
    if i == 0 then b.locals
    else WalkedFields(b, i - 1) + SubBlockFields(b, i - 1, |SubBlocks(b.statements[i - 1])|)
  }

  /** The fields of the first `m` blocks held by statement `i` of `b`. */
  function SubBlockFields(b: Block, i: nat, m: nat): seq<FieldDescriptor>
    requires i < |b.statements| && m <= |SubBlocks(b.statements[i])|
    decreases b, i, m
  {
    if m == 0 then []
    else
      assert b.statements[i] in b.statements;
      SubBlockFields(b, i, m - 1) + AllFields(SubBlocks(b.statements[i])[m - 1])
  }

  /** Grouping of appended sequences, stated once so that loops extending a ghost
      trace do not rediscover it. */
  lemma AppendAssoc<T>(a: seq<T>, b: seq<T>, c: seq<T>)
    ensures a + (b + c) == (a + b) + c
  {
  }

  /** `c` is `b` or a block nested, at any depth, in one of its statements. */
  predicate Within(c: Block, b: Block)
    decreases b
  {
    c == b ||
    exists i, k | 0 <= i < |b.statements| && 0 <= k < |SubBlocks(b.statements[i])| ::
      assert b.statements[i] in b.statements;
      Within(c, SubBlocks(b.statements[i])[k])
  }

  lemma {:induction false} SubBlockFieldsContain(b: Block, i: nat, m: nat, k: nat, f: FieldDescriptor)
    requires i < |b.statements| && k < m <= |SubBlocks(b.statements[i])|
    requires f in AllFields(SubBlocks(b.statements[i])[k])
    ensures f in SubBlockFields(b, i, m)
    decreases m
  {
    if k < m - 1 {
      SubBlockFieldsContain(b, i, m - 1, k, f);
    }
  }

  lemma {:induction false} WalkedFieldsContain(b: Block, n: nat, i: nat, f: FieldDescriptor)
    requires i < n <= |b.statements|
    requires f in SubBlockFields(b, i, |SubBlocks(b.statements[i])|)
    ensures f in WalkedFields(b, n)
    decreases n
  {
    var last := SubBlockFields(b, n - 1, |SubBlocks(b.statements[n - 1])|);
    assert WalkedFields(b, n) == WalkedFields(b, n - 1) + last;
    if i < n - 1 {
      WalkedFieldsContain(b, n - 1, i, f);
      assert f in WalkedFields(b, n - 1);
    } else {
      assert f in last;
    }
  }

  lemma {:induction false} OwnFieldsWalked(b: Block, n: nat, f: FieldDescriptor)
    requires n <= |b.statements| && f in b.locals
    ensures f in WalkedFields(b, n)
  {
    if n > 0 {
      OwnFieldsWalked(b, n - 1, f);
    }
  }

  /** Every field of every block nested in `b`, however deep, is among the fields the
      walk meets. */
  lemma {:induction false} NestedFieldCollected(c: Block, b: Block, f: FieldDescriptor)
    requires Within(c, b) && f in c.locals
    ensures f in AllFields(b)
    decreases b
  {
    if c == b {
      OwnFieldsWalked(b, |b.statements|, f);
    } else {
      var i, k :| 0 <= i < |b.statements| && 0 <= k < |SubBlocks(b.statements[i])| &&
                  Within(c, SubBlocks(b.statements[i])[k]);
      assert b.statements[i] in b.statements;
      NestedFieldCollected(c, SubBlocks(b.statements[i])[k], f);
      SubBlockFieldsContain(b, i, |SubBlocks(b.statements[i])|, k, f);
      WalkedFieldsContain(b, |b.statements|, i, f);
    }
  }
}
