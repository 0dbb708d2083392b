/**
 `writeMemoryCallback` of src/file.c: the write callback through which curl
 hands downloaded data to a growing, NUL-terminated byte buffer. Allocation is
 an input: `allocOk` says whether `realloc` succeeded.
 */
module CurlBuffer {
  import opened Ints

  /** One more than the largest `size_t`. */
  const SizeLimit: int := 0x1_0000_0000_0000_0000

  /** `struct MemoryStruct`: the allocated bytes and the number of data bytes in use. */
  datatype MemoryStruct = MemoryStruct(memory: seq<u8>, size: nat)

  /** The buffer holds at least its data bytes. */
  predicate Valid(mem: MemoryStruct) {
    mem.size <= |mem.memory|
  }

  /** The data received so far. */
  function Data(mem: MemoryStruct): seq<u8>
    requires Valid(mem)
  {
    mem.memory[..mem.size]
  }

  /** The buffer `isRomInDatabase` starts with: one allocated byte, no data. */
  function Initial(first: u8): (mem: MemoryStruct)
    ensures Valid(mem) && Data(mem) == []
  {
    MemoryStruct([first], 0)
  }

  /** The callback's effect on the buffer and its return value. */
  datatype Written = Written(mem: MemoryStruct, returned: nat)

  /**
   `size * nmemb` bytes of `contents` are appended after the data, the buffer
   is reallocated to exactly one byte more and NUL-terminated, and the byte
   count is returned. When `realloc` fails the buffer is left as it was and 0
   is returned, which tells curl to abort the transfer.
   */
  function WriteMemoryCallback(contents: seq<u8>, size: nat, nmemb: nat, mem: MemoryStruct, allocOk: bool): (r: Written)
    requires Valid(mem)
    requires |contents| == size * nmemb
    requires mem.size + size * nmemb + 1 < SizeLimit
    ensures Valid(r.mem)
    ensures !allocOk ==> r.returned == 0 && r.mem == mem
    ensures allocOk ==>
      && r.returned == |contents|
      && r.mem.size == mem.size + |contents|
      && Data(r.mem)[..mem.size] == Data(mem)
      && Data(r.mem)[mem.size..] == contents
      && |r.mem.memory| == r.mem.size + 1
      && r.mem.memory[r.mem.size] == 0
  {
    var realsize := size * nmemb;
    if !allocOk then Written(mem, 0)
    else
      var memory := mem.memory[..mem.size] + contents + [0];
      Written(MemoryStruct(memory, mem.size + realsize), realsize)
  }

  /** Successful callbacks, one per chunk in order, each delivering the chunk as `size` 1. */
  function AppendAll(mem: MemoryStruct, chunks: seq<seq<u8>>): (r: MemoryStruct)
    requires Valid(mem)
    requires mem.size + TotalLength(chunks) + 1 < SizeLimit
    ensures Valid(r)
    decreases |chunks|
  {
    if chunks == [] then mem
    else AppendAll(WriteMemoryCallback(chunks[0], 1, |chunks[0]|, mem, true).mem, chunks[1..])
  }

  function TotalLength(chunks: seq<seq<u8>>): nat
    decreases |chunks|
  {
    if chunks == [] then 0 else |chunks[0]| + TotalLength(chunks[1..])
  }

  /** All chunks concatenated. */
  function Concat(chunks: seq<seq<u8>>): (r: seq<u8>)
    ensures |r| == TotalLength(chunks)
    decreases |chunks|
  {
    if chunks == [] then [] else chunks[0] + Concat(chunks[1..])
  }

  /**
   However the transfer is split into chunks, the buffer ends up holding the
   old data followed by all chunks in order.
   */
  lemma {:induction false} AppendAllConcatenates(mem: MemoryStruct, chunks: seq<seq<u8>>)
    requires Valid(mem)
    requires mem.size + TotalLength(chunks) + 1 < SizeLimit
    ensures Data(AppendAll(mem, chunks)) == Data(mem) + Concat(chunks)
    ensures AppendAll(mem, chunks).size == mem.size + TotalLength(chunks)
    decreases |chunks|
  {
    if chunks != [] {
      var next := WriteMemoryCallback(chunks[0], 1, |chunks[0]|, mem, true).mem;
      assert Data(next) == Data(mem) + chunks[0] by {
        assert Data(next) == Data(next)[..mem.size] + Data(next)[mem.size..];
      }
      AppendAllConcatenates(next, chunks[1..]);
      assert Data(mem) + chunks[0] + Concat(chunks[1..]) == Data(mem) + Concat(chunks);
    }
  }

  /** Two callbacks in a row leave the same buffer as one callback with both pieces. */
  lemma TwoCallsAsOne(mem: MemoryStruct, a: seq<u8>, b: seq<u8>)
    requires Valid(mem)
    requires mem.size + |a| + |b| + 1 < SizeLimit
    ensures
      var first := WriteMemoryCallback(a, 1, |a|, mem, true).mem;
      WriteMemoryCallback(b, 1, |b|, first, true).mem == WriteMemoryCallback(a + b, 1, |a + b|, mem, true).mem
  {
    var first := WriteMemoryCallback(a, 1, |a|, mem, true).mem;
    assert first.memory[..first.size] == mem.memory[..mem.size] + a;
  }
}
