/** The two iterators over a decoded C-DNS file: `File::iter_blocks` pairs
    every block with the parameter set its preamble selects, and
    `Block::iter_query_responses` hands out every Q/R item of a block
    together with the block's context. Each is a cursor over a slice. */
module Iterators {
  import opened Wrappers
  import opened Cbor

  /** Seconds since the POSIX epoch and ticks within the second. */
  datatype Timestamp = Timestamp(secs: int, ticks: nat)

  /** A parameter set; the iterators only hand it out. */
  datatype BlockParameters = BlockParameters(storageParameters: Value, collectionParameters: Option<Value>)

  datatype BlockPreamble = BlockPreamble(earliestTime: Option<Timestamp>, blockParametersIndex: Option<nat>)

  /** The tables a block's Q/R items index into; only handed out. */
  datatype BlockTables = BlockTables(tables: seq<Option<Value>>)

  /** A Q/R item; only handed out. */
  datatype QueryResponse = QueryResponse(fields: seq<Option<Value>>)

  datatype Block = Block(
    preamble: BlockPreamble,
    statistics: Option<Value>,
    tables: Option<BlockTables>,
    queryResponses: Option<seq<QueryResponse>>,
    addressEventCounts: Option<seq<Value>>,
    malformedMessages: Option<seq<Value>>)

  datatype FilePreamble = FilePreamble(
    majorFormatVersion: nat,
    minorFormatVersion: nat,
    privateVersion: Option<nat>,
    blockParameters: seq<BlockParameters>)

  datatype File = File(fileTypeId: string, preamble: FilePreamble, blocks: seq<Block>)

  type BlockItem = (Block, BlockParameters)

  type QueryResponseItem = (QueryResponse, Option<Timestamp>, BlockParameters, BlockTables)

  /** `Iterator::fold` over a sequence: f applied from the first item on. */
  function FoldLeft<A, B>(f: (B, A) -> B, init: B, xs: seq<A>): B {
    if xs == [] then init else FoldLeft(f, f(init, xs[0]), xs[1..])
  }

  // ---------------------------------------------------------------------------
  // Blocks
  // ---------------------------------------------------------------------------

  /** The parameter set a block selects: `block_parameters_index`, or 0 when
      it is absent. */
  function ParametersIndex(b: Block): nat {
    b.preamble.blockParametersIndex.GetOr(0)
  }

  /** Every block selects an existing parameter set; otherwise indexing
      `block_parameters` panics when that block is reached. */
  predicate IndicesInRange(parameters: seq<BlockParameters>, blocks: seq<Block>) {
    forall k :: 0 <= k < |blocks| ==> ParametersIndex(blocks[k]) < |parameters|
  }

  /** The items the block iterator yields, in order. */
  function BlockItems(parameters: seq<BlockParameters>, blocks: seq<Block>): (r: seq<BlockItem>)
    requires IndicesInRange(parameters, blocks)
    ensures |r| == |blocks|
    ensures forall k :: 0 <= k < |blocks| ==>
              r[k] == (blocks[k], parameters[blocks[k].preamble.blockParametersIndex.GetOr(0)])
  {
    if blocks == [] then []
    else [(blocks[0], parameters[ParametersIndex(blocks[0])])] + BlockItems(parameters, blocks[1..])
  }

  /** `BlockIterator`: the file's parameter sets and a cursor into its
      blocks. */
  class BlockIterator {
    const blockParameters: seq<BlockParameters>
    const blocks: seq<Block>
    var cursor: nat

    ghost predicate Valid()
      reads this
    {
      cursor <= |blocks|
    }

    /** The blocks not yet handed out. */
    function Remaining(): seq<Block>
      reads this
      requires Valid()
    {
      blocks[cursor..]
    }

    /** `File::iter_blocks` */
    constructor (file: File)
      ensures Valid()
      ensures blockParameters == file.preamble.blockParameters
      ensures Remaining() == file.blocks
    {
      blockParameters := file.preamble.blockParameters;
      blocks := file.blocks;
      cursor := 0;
    }

    /** `BlockIterator::next`: the next block with its parameter set, or
        nothing once every block was handed out. */
    method Next() returns (item: Option<BlockItem>)
      requires Valid()
      requires cursor < |blocks| ==> ParametersIndex(blocks[cursor]) < |blockParameters|
      modifies this
      ensures Valid()
      ensures old(Remaining()) == [] ==> item == None && Remaining() == []
      ensures old(Remaining()) != [] ==>
                && item == Some((old(Remaining())[0], blockParameters[ParametersIndex(old(Remaining())[0])]))
                && Remaining() == old(Remaining())[1..]
    {
      if cursor == |blocks| {
        return None;
      }
      var block := blocks[cursor];
      cursor := cursor + 1;
      return Some((block, blockParameters[ParametersIndex(block)]));
    }

    /** `BlockIterator::size_hint`: exactly the number of blocks left, as
        lower and upper bound. */
    function SizeHint(): (hint: (nat, Option<nat>))
      reads this
      requires Valid()
      ensures hint.0 == |Remaining()| && hint.1 == Some(|Remaining()|)
    {
      (|blocks| - cursor, Some(|blocks| - cursor))
    }

    /** `BlockIterator::fold`: f folded over the items `next` would yield. */
    method Fold<B>(init: B, f: (B, BlockItem) -> B) returns (r: B)
      requires Valid()
      requires IndicesInRange(blockParameters, Remaining())
      ensures r == FoldLeft(f, init, BlockItems(blockParameters, Remaining()))
    {
      var acc := init;
      var i := cursor;
      while i < |blocks|
        invariant cursor <= i <= |blocks|
        invariant IndicesInRange(blockParameters, blocks[i..])
        invariant FoldLeft(f, init, BlockItems(blockParameters, blocks[cursor..])) ==
                  FoldLeft(f, acc, BlockItems(blockParameters, blocks[i..]))
      {
        var block := blocks[i];
        assert blocks[i..][1..] == blocks[i + 1..];
        acc := f(acc, (block, blockParameters[ParametersIndex(block)]));
        i := i + 1;
      }
      return acc;
    }
  }

  // ---------------------------------------------------------------------------
  // Q/R items
  // ---------------------------------------------------------------------------

  /** The items the Q/R iterator yields, in order: each Q/R item with the
      block's earliest time, parameters and tables. */
  function QueryResponseItems(queryResponses: seq<QueryResponse>, earliestTime: Option<Timestamp>,
                              parameters: BlockParameters, tables: BlockTables): (r: seq<QueryResponseItem>)
    ensures |r| == |queryResponses|
    ensures forall k :: 0 <= k < |queryResponses| ==>
              r[k] == (queryResponses[k], earliestTime, parameters, tables)
  {
    if queryResponses == [] then []
    else [(queryResponses[0], earliestTime, parameters, tables)]
         + QueryResponseItems(queryResponses[1..], earliestTime, parameters, tables)
  }

  /** `QueryResponseIterator`: the block's context and a cursor into its Q/R
      items. */
  class QueryResponseIterator {
    const earliestTime: Option<Timestamp>
    const blockParameters: BlockParameters
    const blockTables: BlockTables
    const queryResponses: seq<QueryResponse>
    var cursor: nat

    ghost predicate Valid()
      reads this
    {
      cursor <= |queryResponses|
    }

    /** The Q/R items not yet handed out. */
    function Remaining(): seq<QueryResponse>
      reads this
      requires Valid()
    {
      queryResponses[cursor..]
    }

    /** `Block::iter_query_responses`. A block without tables makes the
        source panic, whether or not it has Q/R items; a block without Q/R
        items yields none. */
    constructor (block: Block, parameters: BlockParameters)
      requires block.tables.Some?
      ensures Valid()
      ensures earliestTime == block.preamble.earliestTime
      ensures blockParameters == parameters
      ensures blockTables == block.tables.value
      ensures Remaining() == block.queryResponses.GetOr([])
    {
      earliestTime := block.preamble.earliestTime;
      blockParameters := parameters;
      blockTables := block.tables.value;
      queryResponses := block.queryResponses.GetOr([]);
      cursor := 0;
    }

    /** `QueryResponseIterator::next` */
    method Next() returns (item: Option<QueryResponseItem>)
      requires Valid()
      modifies this
      ensures Valid()
      ensures old(Remaining()) == [] ==> item == None && Remaining() == []
      ensures old(Remaining()) != [] ==>
                && item == Some((old(Remaining())[0], earliestTime, blockParameters, blockTables))
                && Remaining() == old(Remaining())[1..]
    {
      if cursor == |queryResponses| {
        return None;
      }
      var queryResponse := queryResponses[cursor];
      cursor := cursor + 1;
      return Some((queryResponse, earliestTime, blockParameters, blockTables));
    }

    /** `QueryResponseIterator::size_hint` */
    function SizeHint(): (hint: (nat, Option<nat>))
      reads this
      requires Valid()
      ensures hint.0 == |Remaining()| && hint.1 == Some(|Remaining()|)
    {
      (|queryResponses| - cursor, Some(|queryResponses| - cursor))
    }

    /** `QueryResponseIterator::fold` */
    method Fold<B>(init: B, f: (B, QueryResponseItem) -> B) returns (r: B)
      requires Valid()
      ensures r == FoldLeft(f, init, QueryResponseItems(Remaining(), earliestTime, blockParameters, blockTables))
    {
      var acc := init;
      var i := cursor;
      while i < |queryResponses|
        invariant cursor <= i <= |queryResponses|
        invariant FoldLeft(f, init, QueryResponseItems(queryResponses[cursor..], earliestTime, blockParameters, blockTables)) ==
                  FoldLeft(f, acc, QueryResponseItems(queryResponses[i..], earliestTime, blockParameters, blockTables))
      {
        assert queryResponses[i..][1..] == queryResponses[i + 1..];
        acc := f(acc, (queryResponses[i], earliestTime, blockParameters, blockTables));
        i := i + 1;
      }
      return acc;
    }
  }

  // ---------------------------------------------------------------------------
  // Properties relating several calls
  // ---------------------------------------------------------------------------

  /** Folding is stepping: the fold of the remaining items is the fold, from
      f applied to the first item, of the items after it; so `fold` gives
      what folding f over the items of repeated `next` calls gives. */
  lemma {:induction false} BlockFoldIsRepeatedNext<B>(f: (B, BlockItem) -> B, init: B,
                                                     parameters: seq<BlockParameters>, blocks: seq<Block>)
    requires IndicesInRange(parameters, blocks)
    ensures blocks == [] ==> FoldLeft(f, init, BlockItems(parameters, blocks)) == init
    ensures blocks != [] ==>
              FoldLeft(f, init, BlockItems(parameters, blocks)) ==
              FoldLeft(f, f(init, (blocks[0], parameters[ParametersIndex(blocks[0])])),
                       BlockItems(parameters, blocks[1..]))
  {
    if blocks != [] {
      var items := BlockItems(parameters, blocks);
      assert items[1..] == BlockItems(parameters, blocks[1..]);
    }
  }

  /** Handing out all items of a file: as many as there are blocks, block k
      paired with the parameter set it selects (set 0 when it selects none). */
  lemma FileItems(file: File, k: nat)
    requires IndicesInRange(file.preamble.blockParameters, file.blocks)
    requires k < |file.blocks|
    ensures |BlockItems(file.preamble.blockParameters, file.blocks)| == |file.blocks|
    ensures BlockItems(file.preamble.blockParameters, file.blocks)[k].0 == file.blocks[k]
    ensures file.blocks[k].preamble.blockParametersIndex.None? ==>
              BlockItems(file.preamble.blockParameters, file.blocks)[k].1 == file.preamble.blockParameters[0]
  {
  }
}
