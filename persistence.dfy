/*
  The block store of the Rust port: a boxed slice of memory blocks, block 0 the
  inode table and every later block a data block. A Rust panic is an outcome of
  its own, naming the check that fired.
*/
module Persistence {
  newtype u8 = b: int | 0 <= b < 256

  /** The Box<[u8]> of a data block, as a place: through a mutable reference to it
      a caller may change its bytes or put a new buffer, of any length, in it. */
  class BoxedBytes {
    var bytes: seq<u8>

    /** An empty buffer, as Vec::with_capacity(..).into_boxed_slice() gives. */
    constructor Empty()
      ensures bytes == []
    {
      bytes := [];
    }
  }

  /** A block: the inode table, inode number to attributes (the attributes are kept
      abstract as A), or the boxed bytes of a data block. */
  datatype MemoryBlock<A> = InodeTable(attrs: map<nat, A>) | Data(data: BoxedBytes)

  /** The run-time check a panicking call trips. */
  datatype Panic = DivideByZero | SubtractOverflow | IndexOutOfBounds | NotADataBlock

  datatype Outcome<T> = Done(value: T) | Panicked(reason: Panic)

  class Disk<A> {
    var memoryBlocks: array<MemoryBlock<A>>
    var blockSize: nat

    /** The layout Disk::new builds: the inode table first, data blocks after it. */
    ghost predicate Valid()
      reads this, memoryBlocks
    {
      && memoryBlocks.Length >= 1
      && memoryBlocks[0].InodeTable?
      && forall i :: 1 <= i < memoryBlocks.Length ==> memoryBlocks[i].Data?
    }

    /** The struct literal: the blocks moved into a boxed slice. */
    constructor (blocks: seq<MemoryBlock<A>>, blockSize: nat)
      ensures fresh(memoryBlocks) && memoryBlocks[..] == blocks && this.blockSize == blockSize
    {
      memoryBlocks := new MemoryBlock<A>[|blocks|](i requires 0 <= i < |blocks| => blocks[i]);
      this.blockSize := blockSize;
    }

    /** Disk::new: block_quantity is the memory size over the block size; the
        table is pushed, then one empty data block for each k in
        1..block_quantity - 1, so for block_quantity >= 2 the disk has
        block_quantity - 1 blocks. A zero block size divides by zero and a zero
        block_quantity underflows the range bound; both panic. */
    static method New(memorySizeInBytes: nat, blockSize: nat) returns (r: Outcome<Disk<A>>)
      ensures r == Panicked(DivideByZero) <==> blockSize == 0
      ensures r == Panicked(SubtractOverflow) <==> blockSize != 0 && memorySizeInBytes < blockSize
      ensures r.Done? <==> blockSize != 0 && memorySizeInBytes >= blockSize
      ensures r.Done? ==>
        var d := r.value;
        var quantity := memorySizeInBytes / blockSize;
        && fresh(d) && fresh(d.memoryBlocks)
        && d.Valid()
        && d.blockSize == blockSize
        && d.memoryBlocks.Length == (if quantity >= 2 then quantity - 1 else 1)
        && d.memoryBlocks[0] == InodeTable(map[])
        && (forall i :: 1 <= i < d.memoryBlocks.Length ==>
              fresh(d.memoryBlocks[i].data) && d.memoryBlocks[i].data.bytes == [])
        && (forall i, j :: 1 <= i < j < d.memoryBlocks.Length ==>
              d.memoryBlocks[i].data != d.memoryBlocks[j].data)
    {
      if blockSize == 0 {
        return Panicked(DivideByZero);
      }
      var blockQuantity := memorySizeInBytes / blockSize;
      if blockQuantity == 0 {
        return Panicked(SubtractOverflow);
      }
      var blocks: seq<MemoryBlock<A>> := [InodeTable(map[])];
      var k := 1;
      while k < blockQuantity - 1
        invariant 1 <= k && |blocks| == k
        invariant k <= if blockQuantity >= 2 then blockQuantity - 1 else 1
        invariant blocks[0] == InodeTable(map[])
        invariant forall i :: 1 <= i < k ==>
                    blocks[i].Data? && fresh(blocks[i].data) && blocks[i].data.bytes == []
        invariant forall i, j :: 1 <= i < j < k ==> blocks[i].data != blocks[j].data
      {
        var data := new BoxedBytes.Empty();
        blocks := blocks + [Data(data)];
        k := k + 1;
      }
      assert |blocks| == if blockQuantity >= 2 then blockQuantity - 1 else 1;
      var d := new Disk(blocks, blockSize);
      assert d.memoryBlocks.Length == |d.memoryBlocks[..]|;
      return Done(d);
    }

    /** Disk::get_content_from_block: the data block's own box, through which the
        caller may rewrite or replace its bytes; a panic on the inode table and on
        an index past the last block. On a disk laid out by Disk::new exactly the
        indices 1 to the last are readable. */
    method GetContentFromBlock(blockIndex: nat) returns (r: Outcome<BoxedBytes>)
      ensures blockIndex >= memoryBlocks.Length ==> r == Panicked(IndexOutOfBounds)
      ensures blockIndex < memoryBlocks.Length && memoryBlocks[blockIndex].InodeTable? ==>
                r == Panicked(NotADataBlock)
      ensures blockIndex < memoryBlocks.Length && memoryBlocks[blockIndex].Data? ==>
                r == Done(memoryBlocks[blockIndex].data)
      ensures Valid() ==> (r.Done? <==> 1 <= blockIndex < memoryBlocks.Length)
    {
      if blockIndex >= memoryBlocks.Length {
        return Panicked(IndexOutOfBounds);
      }
      match memoryBlocks[blockIndex]
      case Data(data) => return Done(data);
      case InodeTable(_) => return Panicked(NotADataBlock);
    }
  }
}
