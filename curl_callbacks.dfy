/**
  The C callbacks libcurl calls during a transfer (curl_callbacks.c): the
  body is appended to a growing NUL-terminated buffer, each header line is
  copied into its own NUL-terminated buffer and appended to an array of
  them. `realloc` and `malloc` are modelled as allocating a fresh array and
  copying; whether an allocation succeeds is an input.
 */
module CurlCallbacks {
  import opened Text

  /** `MemoryStruct`: the body received so far, `size` bytes of `data`. */
  class MemoryStruct {
    var data: array?<byte>
    var size: nat

    /** The buffer holds the bytes and the NUL after them. */
    predicate Valid()
      reads this, data
    {
      (data == null ==> size == 0)
      && (data != null ==> size < data.Length && data[size] == 0)
    }

    function Contents(): seq<byte>
      reads this, data
      requires Valid()
    {
      if data == null then [] else data[..size]
    }

    /** The zeroed struct the caller passes in. */
    constructor ()
      ensures Valid() && data == null && size == 0
    {
      data := null;
      size := 0;
    }
  }

  /** `write_callback` on the `MemoryStruct` behind `userdata`. */
  method WriteCallback(ptr: seq<byte>, size: nat, nmemb: nat, mem: MemoryStruct, reallocOk: bool)
    returns (written: nat)
    requires |ptr| == size * nmemb && mem.Valid()
    modifies mem
    ensures mem.Valid()
    ensures !reallocOk ==> written == 0 && mem.data == old(mem.data) && mem.size == old(mem.size)
    ensures reallocOk ==>
      written == size * nmemb && fresh(mem.data) && mem.size == old(mem.size) + size * nmemb
      && mem.Contents() == old(mem.Contents()) + ptr
  {
    var realSize := size * nmemb;
    if !reallocOk {
      return 0;
    }
    var oldSize := mem.size;
    var oldData := mem.data;
    ghost var before := mem.Contents();
    var ptrNew := new byte[oldSize + realSize + 1];
    // realloc keeps the old contents
    var i := 0;
    while i < oldSize
      modifies ptrNew
      invariant 0 <= i <= oldSize
      invariant ptrNew[..i] == before[..i]
    {
      ptrNew[i] := oldData[i];
      i := i + 1;
    }
    // memcpy(&mem->data[mem->size], ptr, real_size)
    var j := 0;
    while j < realSize
      modifies ptrNew
      invariant 0 <= j <= realSize
      invariant ptrNew[..oldSize] == before
      invariant ptrNew[oldSize..oldSize + j] == ptr[..j]
    {
      ptrNew[oldSize + j] := ptr[j];
      assert ptrNew[oldSize..oldSize + j + 1] == ptrNew[oldSize..oldSize + j] + [ptr[j]];
      j := j + 1;
    }
    assert ptrNew[..oldSize + realSize] == before + ptr by {
      assert ptrNew[..oldSize + realSize] == ptrNew[..oldSize] + ptrNew[oldSize..oldSize + realSize];
    }
    ptrNew[oldSize + realSize] := 0;
    assert ptrNew[..oldSize + realSize] == before + ptr;
    mem.data := ptrNew;
    mem.size := oldSize + realSize;
    return realSize;
  }

  /** `HeaderStruct`: `count` NUL-terminated header copies. */
  class HeaderStruct {
    var headers: array?<seq<byte>>
    var count: nat

    predicate Valid()
      reads this
    {
      (headers == null ==> count == 0) && (headers != null ==> count <= headers.Length)
    }

    function Entries(): seq<seq<byte>>
      reads this, headers
      requires Valid()
    {
      if headers == null then [] else headers[..count]
    }

    constructor ()
      ensures Valid() && headers == null && count == 0
    {
      headers := null;
      count := 0;
    }
  }

  /** `malloc(real_size + 1)`, `memcpy` and the NUL: a fresh copy of the line. */
  method CopyWithNul(ptr: seq<byte>) returns (header: array<byte>)
    ensures fresh(header) && header[..] == ptr + [0]
  {
    header := new byte[|ptr| + 1];
    var j := 0;
    while j < |ptr|
      modifies header
      invariant 0 <= j <= |ptr|
      invariant header[..j] == ptr[..j]
    {
      header[j] := ptr[j];
      j := j + 1;
    }
    header[|ptr|] := 0;
    assert header[..] == header[..|ptr|] + [header[|ptr|]];
  }

  /** `header_callback` on the `HeaderStruct` behind `userdata`. */
  method HeaderCallback(ptr: seq<byte>, size: nat, nmemb: nat, hs: HeaderStruct, mallocOk: bool, reallocOk: bool)
    returns (written: nat)
    requires |ptr| == size * nmemb && hs.Valid()
    modifies hs
    ensures hs.Valid()
    ensures !(mallocOk && reallocOk) ==> written == 0 && hs.headers == old(hs.headers) && hs.count == old(hs.count)
    ensures mallocOk && reallocOk ==>
      written == size * nmemb && fresh(hs.headers) && hs.count == old(hs.count) + 1
      && hs.Entries() == old(hs.Entries()) + [ptr + [0]]
  {
    var realSize := size * nmemb;
    if !mallocOk {
      return 0;
    }
    var header := CopyWithNul(ptr);
    if !reallocOk {
      // free(header)
      return 0;
    }
    // realloc(headers->headers, sizeof(char*) * (count + 1))
    var oldCount := hs.count;
    var oldHeaders := hs.headers;
    ghost var before := hs.Entries();
    var temp := new seq<byte>[oldCount + 1];
    var i := 0;
    while i < oldCount
      modifies temp
      invariant 0 <= i <= oldCount
      invariant temp[..i] == before[..i]
    {
      temp[i] := oldHeaders[i];
      i := i + 1;
    }
    assert temp[..oldCount] == before;
    ghost var kept := temp[..oldCount];
    temp[oldCount] := header[..];
    assert temp[..oldCount] == kept;
    assert temp[oldCount] == ptr + [0];
    assert temp[..oldCount + 1] == before + [ptr + [0]] by {
      assert temp[..oldCount + 1] == temp[..oldCount] + [temp[oldCount]];
    }
    hs.headers := temp;
    hs.count := oldCount + 1;
    return realSize;
  }

  /** The bytes before the first NUL: what `CStr::from_ptr` reads back. */
  function UpToNul(b: seq<byte>): (r: seq<byte>)
    ensures StartsWith(b, r) && 0 !in r
    ensures |r| < |b| ==> b[|r|] == 0
  {
    if b == [] || b[0] == 0 then []
    else
      var rest := UpToNul(b[1..]);
      assert b == [b[0]] + b[1..];
      [b[0]] + rest
  }

  /** A stored header reads back as the exact bytes received, as long as the
      line holds no NUL byte. */
  lemma {:induction false} StoredHeaderReadsBack(line: seq<byte>)
    requires 0 !in line
    ensures UpToNul(line + [0]) == line
    decreases |line|
  {
    if line != [] {
      assert (line + [0])[1..] == line[1..] + [0];
      StoredHeaderReadsBack(line[1..]);
    }
  }

  /** With a NUL inside the line, reading back stops at it. */
  lemma {:induction false} NulTruncatesHeader(before: seq<byte>, after: seq<byte>)
    requires 0 !in before
    ensures UpToNul(before + [0] + after + [0]) == before
    decreases |before|
  {
    if before != [] {
      assert (before + [0] + after + [0])[1..] == before[1..] + [0] + after + [0];
      NulTruncatesHeader(before[1..], after);
    }
  }
}
