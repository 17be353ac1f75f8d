/**
 * The grouping step of `output_markdown` (lib/rblines/redlines.rb:101):
 * `opcodes.chunk_while { |a, b| a.action == b.action }.to_a`.
 */
module Grouping {
  import opened Sdiff

  /** `ops.chunk_while { |a, b| a.action == b.action }`: a new chunk starts where two neighbours differ in action. */
  function ChunkWhile(ops: seq<Change>): (r: seq<seq<Change>>)
    ensures ops != [] ==> r != [] && r[0] != [] && r[0][0] == ops[0]
    ensures forall i :: 0 <= i < |r| ==> r[i] != []
    decreases |ops|
  {
    if |ops| == 0 then []
    else if |ops| == 1 then [ops]
    else
      var rest := ChunkWhile(ops[1..]);
      if ops[0].action == ops[1].action then [[ops[0]] + rest[0]] + rest[1..]
      else [[ops[0]]] + rest
  }

  /** The groups one after the other. */
  function Flatten(gs: seq<seq<Change>>): seq<Change> {
    if gs == [] then [] else gs[0] + Flatten(gs[1..])
  }

  /** A non-empty group whose records all share one action. */
  predicate Uniform(g: seq<Change>) {
    g != [] && forall i :: 0 <= i < |g| ==> g[i].action == g[0].action
  }

  /**
   * `gs` cuts `ops` into maximal runs: in order and without gaps, every
   * group non-empty with one action, neighbouring groups with different actions.
   */
  predicate IsRunPartition(gs: seq<seq<Change>>, ops: seq<Change>) {
    Flatten(gs) == ops &&
    (forall i :: 0 <= i < |gs| ==> Uniform(gs[i])) &&
    (forall i :: 0 <= i < |gs| - 1 ==> gs[i][0].action != gs[i + 1][0].action)
  }

  lemma FlattenCons(g: seq<Change>, gs: seq<seq<Change>>)
    ensures Flatten([g] + gs) == g + Flatten(gs)
  {
    assert ([g] + gs)[1..] == gs;
  }

  /** A record with the action of the first run joins that run. */
  lemma PartitionJoinFirst(x: Change, gs: seq<seq<Change>>, ops: seq<Change>)
    requires IsRunPartition(gs, ops) && gs != [] && x.action == gs[0][0].action
    ensures IsRunPartition([[x] + gs[0]] + gs[1..], [x] + ops)
  {
    var g := [x] + gs[0];
    var r := [g] + gs[1..];
    assert gs == [gs[0]] + gs[1..];
    FlattenCons(gs[0], gs[1..]);
    FlattenCons(g, gs[1..]);
    assert Uniform(g) by {
      forall i | 0 <= i < |g| ensures g[i].action == g[0].action {
        if i > 0 { assert g[i] == gs[0][i - 1]; }
      }
    }
    forall i | 0 <= i < |r| ensures Uniform(r[i]) {
      if i > 0 { assert r[i] == gs[i]; }
    }
    forall i | 0 <= i < |r| - 1 ensures r[i][0].action != r[i + 1][0].action {
      assert r[i + 1] == gs[i + 1];
      if i > 0 { assert r[i] == gs[i]; }
    }
  }

  /** A record with another action than the first run starts a run of its own. */
  lemma PartitionStartNew(x: Change, gs: seq<seq<Change>>, ops: seq<Change>)
    requires IsRunPartition(gs, ops) && (gs != [] ==> x.action != gs[0][0].action)
    ensures IsRunPartition([[x]] + gs, [x] + ops)
  {
    var r := [[x]] + gs;
    FlattenCons([x], gs);
    forall i | 0 <= i < |r| ensures Uniform(r[i]) {
      if i > 0 { assert r[i] == gs[i - 1]; }
    }
    forall i | 0 <= i < |r| - 1 ensures r[i][0].action != r[i + 1][0].action {
      assert r[i + 1] == gs[i];
      if i > 0 { assert r[i] == gs[i - 1]; }
    }
  }

  /** The chunks of `chunk_while` are the maximal runs of one action. */
  lemma {:induction false} ChunkWhilePartitions(ops: seq<Change>)
    ensures IsRunPartition(ChunkWhile(ops), ops)
    decreases |ops|
  {
    if |ops| == 1 {
      assert ops == [ops[0]] + [];
      PartitionStartNew(ops[0], [], []);
    } else if |ops| > 1 {
      var rest := ChunkWhile(ops[1..]);
      ChunkWhilePartitions(ops[1..]);
      assert ops == [ops[0]] + ops[1..];
      if ops[0].action == ops[1].action {
        PartitionJoinFirst(ops[0], rest, ops[1..]);
      } else {
        PartitionStartNew(ops[0], rest, ops[1..]);
      }
    }
  }

  /** Without the first record of a first group of two or more, the rest is still a partition into maximal runs. */
  lemma PartitionDropShared(gs: seq<seq<Change>>, ops: seq<Change>)
    requires IsRunPartition(gs, ops) && gs != [] && |gs[0]| >= 2
    ensures |ops| >= 2 && ops[0] == gs[0][0] && ops[0].action == ops[1].action
    ensures IsRunPartition([gs[0][1..]] + gs[1..], ops[1..])
  {
    var g := gs[0];
    var gs' := [g[1..]] + gs[1..];
    assert Uniform(g);
    assert gs == [g] + gs[1..];
    FlattenCons(g, gs[1..]);
    FlattenCons(g[1..], gs[1..]);
    assert ops == g + Flatten(gs[1..]);
    assert ops[1..] == g[1..] + Flatten(gs[1..]);
    forall i | 0 <= i < |gs'| ensures Uniform(gs'[i]) {
      if i == 0 {
        forall j | 0 <= j < |g[1..]| ensures g[1..][j].action == g[1..][0].action {
          assert g[1..][j] == g[j + 1];
        }
      } else {
        assert gs'[i] == gs[i];
      }
    }
    forall i | 0 <= i < |gs'| - 1 ensures gs'[i][0].action != gs'[i + 1][0].action {
      assert gs'[i + 1] == gs[i + 1];
      if i > 0 { assert gs'[i] == gs[i]; }
    }
  }

  /** Without a first group of one record, the other groups partition the rest into maximal runs. */
  lemma PartitionDropSingle(gs: seq<seq<Change>>, ops: seq<Change>)
    requires IsRunPartition(gs, ops) && |gs| >= 2 && |gs[0]| == 1
    ensures |ops| >= 2 && gs[0] == [ops[0]] && ops[0].action != ops[1].action
    ensures IsRunPartition(gs[1..], ops[1..])
  {
    var g := gs[0];
    var rest := gs[1..];
    assert gs == [g] + rest;
    FlattenCons(g, rest);
    assert Uniform(rest[0]);
    assert rest == [rest[0]] + rest[1..];
    FlattenCons(rest[0], rest[1..]);
    assert ops[1..] == Flatten(rest);
    assert ops[1] == rest[0][0];
    forall i | 0 <= i < |rest| - 1 ensures rest[i][0].action != rest[i + 1][0].action {
      assert rest[i] == gs[i + 1] && rest[i + 1] == gs[i + 2];
    }
  }

  /** Maximal runs are unique: any partition into maximal runs is the one `chunk_while` returns. */
  lemma {:induction false} RunPartitionUnique(gs: seq<seq<Change>>, ops: seq<Change>)
    requires IsRunPartition(gs, ops)
    ensures gs == ChunkWhile(ops)
    decreases |ops|
  {
    if gs != [] {
      var g := gs[0];
      assert Uniform(g);
      if |g| >= 2 {
        // The first two records share the first group, so `chunk_while` joins them.
        PartitionDropShared(gs, ops);
        RunPartitionUnique([g[1..]] + gs[1..], ops[1..]);
        assert ChunkWhile(ops) == [[ops[0]] + g[1..]] + gs[1..];
        assert [ops[0]] + g[1..] == g;
      } else if |gs| == 1 {
        assert gs[1..] == [];
        FlattenCons(g, []);
        assert ops == g;
      } else {
        // The first group is a single record; the next one starts with a different action.
        PartitionDropSingle(gs, ops);
        RunPartitionUnique(gs[1..], ops[1..]);
        assert ChunkWhile(ops) == [[ops[0]]] + ChunkWhile(ops[1..]);
        assert gs == [g] + gs[1..];
      }
    }
  }

  /** Every record of every group is one of the flattened records. */
  lemma {:induction false} FlattenHas(gs: seq<seq<Change>>, j: nat, m: nat)
    requires j < |gs| && m < |gs[j]|
    ensures gs[j][m] in Flatten(gs)
    decreases |gs|
  {
    if j == 0 {
      assert Flatten(gs)[m] == gs[0][m];
    } else {
      FlattenHas(gs[1..], j - 1, m);
      assert gs[1..][j - 1] == gs[j];
    }
  }

  /** Every flattened record sits in some group. */
  lemma {:induction false} FlattenFind(gs: seq<seq<Change>>, k: nat)
    requires k < |Flatten(gs)|
    ensures exists j, m :: 0 <= j < |gs| && 0 <= m < |gs[j]| && gs[j][m] == Flatten(gs)[k]
    decreases |gs|
  {
    if k < |gs[0]| {
      assert gs[0][k] == Flatten(gs)[k];
    } else {
      FlattenFind(gs[1..], k - |gs[0]|);
      var j, m :| 0 <= j < |gs[1..]| && 0 <= m < |gs[1..][j]| && gs[1..][j][m] == Flatten(gs[1..])[k - |gs[0]|];
      assert gs[j + 1][m] == Flatten(gs)[k];
    }
  }
}
