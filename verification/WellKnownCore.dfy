/** The blockwise listing of resources: a server that generates one block of a text at a time
    without holding the text, and a client that asks for one block after another. */
module WellKnownCore {

  import opened Arithmetic
  import CoapOption
  import CoapPacket
  import CoapReceive

  datatype Resource = Resource(url: string, attributes: string)

  // ----- The listing

  function Item(r: Resource): (t: string)
    ensures |t| >= 3
  {
    "</" + r.url + ">" + if r.attributes == "" then "" else ";" + r.attributes
  }

  /** The link-format listing of the resources. */
  function Listing(rs: seq<Resource>): string {
    if rs == [] then ""
    else if |rs| == 1 then Item(rs[0])
    else Listing(rs[..|rs| - 1]) + "," + Item(rs[|rs| - 1])
  }

  /** The listing, character for character. */
  lemma ListingOfTwo(a: Resource, b: Resource)
    ensures a.attributes != "" && b.attributes == "" ==>
      Listing([a, b]) == "</" + a.url + ">;" + a.attributes + ",</" + b.url + ">"
    ensures a.attributes == "" && b.attributes != "" ==>
      Listing([a, b]) == "</" + a.url + ">,</" + b.url + ">;" + b.attributes
  {
    assert [a, b][..1] == [a];
    assert Listing([a, b]) == Item(a) + "," + Item(b);
    assert Item(a) == "</" + a.url + ">" + (if a.attributes == "" then "" else ";" + a.attributes);
    var rest: string := "," + "</" + b.url + ">" + (if b.attributes == "" then "" else ";" + b.attributes);
    assert Listing([a, b]) == Item(a) + rest;
  }

  lemma {:induction false} ListingGrows(rs: seq<Resource>, k: nat)
    requires k < |rs|
    ensures Listing(rs[..k + 1]) == Listing(rs[..k]) + (if k > 0 then "," else "") + Item(rs[k])
    ensures k > 0 ==> |Listing(rs[..k])| > 0
  {
    assert rs[..k + 1][..k] == rs[..k];
  }

  lemma {:induction false} ListingPrefix(rs: seq<Resource>, k: nat)
    requires k <= |rs|
    ensures Listing(rs[..k]) <= Listing(rs)
    ensures k < |rs| ==> |Listing(rs[..k])| < |Listing(rs)|
    decreases |rs| - k
  {
    hide Listing;
    if k < |rs| {
      ListingGrows(rs, k);
      ListingPrefix(rs, k + 1);
    } else {
      assert rs[..k] == rs;
    }
  }

  // ----- One block of it

  /** The part of a text in the `size` characters from `offset` on. */
  function Window(text: string, offset: nat, size: nat): (w: string)
    ensures |w| <= size
  {
    if |text| <= offset then "" else if |text| <= offset + size then text[offset..] else text[offset..offset + size]
  }

  /** What `more` adds to the window. */
  function Added(text: string, more: string, offset: nat, size: nat): (a: string)
    ensures |Window(text, offset, size)| + |a| <= size
  {
    var rest := if |text| + |more| <= offset then "" else if offset > |text| then more[offset - |text|..] else more;
    var room := size - |Window(text, offset, size)|;
    if |rest| <= room then rest else rest[..room]
  }

  lemma WindowOf(text: string, more: string, offset: nat, size: nat)
    ensures Window(text + more, offset, size) == Window(text, offset, size) + Added(text, more, offset, size)
  {
    var t := text + more;
    if |t| > offset {
      var w := Window(t, offset, size);
      var v := Window(text, offset, size) + Added(text, more, offset, size);
      assert |w| == |v|;
      forall i | 0 <= i < |w|
        ensures w[i] == v[i]
      {
        assert w[i] == t[offset + i];
      }
    }
  }

  /** The server does not come to the end of the listing: there is more than the block, or the block
      ends with the attributes of the last resource. */
  predicate More(rs: seq<Resource>, offset: nat, size: nat) {
    |Listing(rs)| > offset + size ||
    (|Listing(rs)| == offset + size && rs != [] && rs[|rs| - 1].attributes != "")
  }

  /** The buffer for one block. */
  class Block {
    const buffer: array<char>
    const offset: nat
    const preferred: nat
    var strpos: nat
    var bufpos: nat

    constructor (buffer: array<char>, offset: nat, preferred: nat)
      requires 0 < preferred < buffer.Length
      ensures this.buffer == buffer && this.offset == offset && this.preferred == preferred && Holds("")
    {
      this.buffer, this.offset, this.preferred := buffer, offset, preferred;
      strpos, bufpos := 0, 0;
    }

    /** The buffer holds the window of `text`, the whole of which has been gone through. */
    ghost predicate Holds(text: string)
      reads this, buffer
    {
      && 0 < preferred < buffer.Length && strpos == |text|
      && bufpos == |Window(text, offset, preferred)| && buffer[..bufpos] == Window(text, offset, preferred)
    }

    /** The buffer is full, with the window of `text`; `bufpos` may be beyond its end. */
    ghost predicate Full(text: string)
      reads this, buffer
    {
      && 0 < preferred < buffer.Length && offset + preferred <= |text| && preferred <= bufpos
      && buffer[..preferred] == Window(text, offset, preferred)
    }

    method PutChar(c: char, ghost text: string)
      requires Holds(text)
      modifies this`strpos, this`bufpos, buffer
      ensures Holds(text + [c])
    {
      WindowOf(text, [c], offset, preferred);
      if strpos >= offset && bufpos < preferred {
        buffer[bufpos] := c;
        bufpos := bufpos + 1;
      }
      strpos := strpos + 1;
    }

    /** Formats what belongs into the block, and counts what would have. */
    method PutString(s: string, ghost text: string) returns (full: bool)
      requires Holds(text)
      modifies this`strpos, this`bufpos, buffer
      ensures full <==> offset + preferred <= |text + s|
      ensures if full then Full(text + s) else Holds(text + s) && bufpos < preferred
    {
      WindowOf(text, s, offset, preferred);
      if strpos + |s| > offset {
        var start := if offset > strpos then offset - strpos else 0;
        Format(s[start..]);
        bufpos := bufpos + |s| - start;
        if bufpos >= preferred {
          return true;
        }
      }
      strpos := strpos + |s|;
      full := false;
    }

    /** Copies as much of the string as there is room for, and a zero. */
    method Format(s: string)
      requires bufpos <= preferred < buffer.Length
      modifies buffer
      ensures var n := if |s| <= preferred - bufpos then |s| else preferred - bufpos;
        buffer[..bufpos + n] == old(buffer[..bufpos]) + s[..n]
    {
      var n := if |s| <= preferred - bufpos then |s| else preferred - bufpos;
      for i := 0 to n
        invariant buffer[..bufpos + i] == old(buffer[..bufpos]) + s[..i]
      {
        buffer[bufpos + i] := s[i];
      }
      buffer[bufpos + n] := '\0';
    }

    /** Goes through one resource. The buffer is found full behind a URL or behind attributes only. */
    method PutResource(r: Resource, ghost text: string) returns (full: bool)
      requires Holds(text)
      modifies this`strpos, this`bufpos, buffer
      ensures full <==> FullIn(r, text + (if |text| > 0 then "," else ""), offset + preferred)
      ensures if full then Full(text + (if |text| > 0 then "," else "") + Item(r))
              else Holds(text + (if |text| > 0 then "," else "") + Item(r))
    {
      hide Holds, Full, Window;
      ghost var t := text + (if |text| > 0 then "," else "");
      StartOf(text, r);
      HeldLength(text);
      if strpos > 0 {
        PutChar(',', text);
      }
      PutChar('<', t);
      PutChar('/', t + "<");
      full := PutString(r.url, t + "</");
      if full {
        FullOn(t + "</" + r.url, t + Item(r));
        return;
      }
      PutChar('>', t + "</" + r.url);
      if r.attributes != "" {
        PutChar(';', t + "</" + r.url + ['>']);
        full := PutString(r.attributes, t + "</" + r.url + ['>'] + [';']);
        if full {
          return;
        }
      }
      HeldLength(t + Item(r));
      if bufpos >= preferred && strpos - bufpos > offset {
        FullFrom(t + Item(r));
        return true;
      }
    }

    lemma HeldLength(text: string)
      requires Holds(text)
      ensures strpos == |text| && bufpos <= preferred
      ensures bufpos >= preferred ==> strpos - bufpos >= offset
    {
    }

    lemma FullBlock(text: string)
      requires Full(text)
      ensures offset < |text| && preferred <= bufpos && preferred < buffer.Length
      ensures buffer[..preferred] == Window(text, offset, preferred)
    {
    }

    lemma LastBlock(text: string)
      requires Holds(text)
      ensures strpos == |text| && bufpos <= preferred < buffer.Length
      ensures buffer[..bufpos] == Window(text, offset, preferred)
      ensures bufpos == 0 <==> |text| <= offset
    {
    }

    lemma FullOn(text: string, longer: string)
      requires Full(text) && text <= longer
      ensures Full(longer)
    {
      WindowOf(text, longer[|text|..], offset, preferred);
      assert text + longer[|text|..] == longer;
    }

    lemma FullFrom(text: string)
      requires Holds(text) && bufpos >= preferred
      ensures Full(text)
    {
    }
  }

  /** The block ends within the item, or with its attributes. */
  predicate FullIn(r: Resource, before: string, end: nat) {
    |before + Item(r)| > end || (|before + Item(r)| == end && r.attributes != "")
  }

  lemma StartOf(text: string, r: Resource)
    ensures var t := text + (if |text| > 0 then "," else "");
      && (|text| > 0 ==> text + [','] == t) && t + ['<'] == t + "<" && t + "<" + ['/'] == t + "</"
      && (r.attributes == "" ==> t + "</" + r.url + ['>'] == t + Item(r))
      && (r.attributes != "" ==> t + "</" + r.url + ['>'] + [';'] + r.attributes == t + Item(r))
      && t + "</" + r.url <= t + Item(r)
    ensures |text| == 0 ==> text + "" == text
  {
  }

  // ----- The server

  const CONTENT := 69
  const BAD_OPTION := 130
  const OUT_OF_SCOPE := "BlockOutOfScope"

  /** Generates the block at `offset`, and tells where the next one begins or that this is the last. */
  method Handler(rs: seq<Resource>, buffer: array<char>, chunk: nat, preferred: nat, offset: nat)
    returns (code: nat, payload: string, next: int)
    requires 0 < preferred <= chunk < buffer.Length
    modifies buffer
    ensures next == if More(rs, offset, preferred) then offset + preferred else -1
    ensures offset < |Listing(rs)| ==> code == CONTENT && Window(Listing(rs), offset, preferred) <= payload
    ensures offset < |Listing(rs)| && next == -1 ==> payload == Window(Listing(rs), offset, preferred)
    ensures offset >= |Listing(rs)| ==> next == -1
    ensures offset >= |Listing(rs)| > 0 ==> code == BAD_OPTION && payload == OUT_OF_SCOPE
    ensures |Listing(rs)| == 0 ==> code == CONTENT && payload == ""
  {
    hide Listing, Item, Window, Block.Holds, Block.Full, FullIn, More;
    var block := new Block(buffer, offset, preferred);
    var k, full := 0, false;
    NothingListed(rs, offset, preferred);
    while k < |rs|
      invariant k <= |rs| && block.buffer == buffer && block.offset == offset && block.preferred == preferred
      invariant fresh(block) && !full && block.Holds(Listing(rs[..k]))
      invariant k < |rs| || !More(rs, offset, preferred)
    {
      ListingGrows(rs, k);
      ListingPrefix(rs, k + 1);
      EmptyListing(rs, k);
      FullIsMore(rs, k, offset, preferred);
      full := block.PutResource(rs[k], Listing(rs[..k]));
      if full {
        block.FullOn(Listing(rs[..k + 1]), Listing(rs));
        break;
      }
      k := k + 1;
    }
    assert rs[..|rs|] == rs;
    if full {
      block.FullBlock(Listing(rs));
    } else {
      block.LastBlock(Listing(rs));
    }
    code, payload := CONTENT, "";
    if block.bufpos > 0 {
      payload := buffer[..if block.bufpos < chunk then block.bufpos else chunk];
    } else if block.strpos > 0 {
      code, payload := BAD_OPTION, OUT_OF_SCOPE;
    }
    next := if full then offset + preferred else -1;
  }

  lemma FullIsMore(rs: seq<Resource>, k: nat, offset: nat, preferred: nat)
    requires k < |rs|
    ensures FullIn(rs[k], Listing(rs[..k]) + (if |Listing(rs[..k])| > 0 then "," else ""), offset + preferred) ==>
      More(rs, offset, preferred)
    ensures k == |rs| - 1 ==>
      (FullIn(rs[k], Listing(rs[..k]) + (if |Listing(rs[..k])| > 0 then "," else ""), offset + preferred) <==>
        More(rs, offset, preferred))
  {
    hide Listing, Item;
    ListingGrows(rs, k);
    ListingPrefix(rs, k + 1);
    assert k == |rs| - 1 ==> rs[..k + 1] == rs;
    EmptyListing(rs, k);
  }

  lemma NothingListed(rs: seq<Resource>, offset: nat, preferred: nat)
    requires preferred > 0
    ensures Listing(rs[..0]) == "" && (rs == [] ==> !More(rs, offset, preferred))
    ensures More(rs, offset, preferred) ==> offset < |Listing(rs)|
  {
  }

  lemma EmptyListing(rs: seq<Resource>, k: nat)
    requires k < |rs|
    ensures |Listing(rs[..k])| > 0 <==> k > 0
  {
    ListingGrows(rs, k);
  }

  datatype Request = First | BlockOf(num: nat, size: nat) {
    /** Where the wanted block begins, and how long it may be. */
    function Offset(): nat { if First? then 0 else num * size }

    function Size(chunk: nat): nat { if First? || size > chunk then chunk else size }
  }

  datatype Response = Response(code: nat, payload: string, num: nat, more: bool, size: nat)

  /** The answer to a request for a block of `rs`. */
  function Reply(rs: seq<Resource>, offset: nat, size: nat): string {
    if offset < |Listing(rs)| then Window(Listing(rs), offset, size)
    else if |Listing(rs)| > 0 then OUT_OF_SCOPE
    else ""
  }

  /** Answers a request, and tells by a block option whether there is more. */
  method Receive(rs: seq<Resource>, buffer: array<char>, chunk: nat, request: Request) returns (r: Response)
    requires 16 <= chunk < buffer.Length && (request.BlockOf? ==> 16 <= request.size)
    modifies buffer
    ensures r.payload == Reply(rs, request.Offset(), request.Size(chunk))
    ensures r.more == More(rs, request.Offset(), request.Size(chunk))
    ensures r.num == (if request.First? then 0 else request.num) && r.size == request.Size(chunk)
    ensures r.code == CONTENT <==> request.Offset() < |Listing(rs)| || |Listing(rs)| == 0
    // The block is as large as the request wants and the server can, and its part of the listing.
    ensures r.size == if request.BlockOf? && request.size < chunk then request.size else chunk
    ensures var whole, from := Listing(rs), if request.BlockOf? then request.num * request.size else 0;
      && (from < |whole| ==> r.payload == if |whole| - from < r.size then whole[from..] else whole[from..from + r.size])
      && (from >= |whole| > 0 ==> r.code == 130 && r.payload == "BlockOutOfScope")
      && (|whole| == 0 ==> r.payload == "")
      && (r.more <==> from + r.size < |whole| || (from + r.size == |whole| && rs != [] && rs[|rs| - 1].attributes != ""))
  {
    hide Listing;
    var num, blockSize, offset := 0, chunk, 0;
    if request.BlockOf? {
      num, offset := request.num, request.num * request.size;
      blockSize := if request.size < chunk then request.size else chunk;
    }
    var code, payload, next := Handler(rs, buffer, chunk, blockSize, offset);
    PrefixCut(payload, Window(Listing(rs), offset, blockSize), blockSize);
    FullWindow(rs, offset, blockSize);
    var more := next != -1;
    if request.BlockOf? {
      more := more || |payload| > blockSize;
    }
    if |payload| > blockSize {
      payload := payload[..blockSize];
    }
    r := Response(code, payload, num, more, blockSize);
  }

  lemma PrefixCut(payload: string, window: string, size: nat)
    requires |window| <= size
    ensures window <= payload && |window| == size ==> (if |payload| > size then payload[..size] else payload) == window
  {
  }

  lemma FullWindow(rs: seq<Resource>, offset: nat, size: nat)
    ensures More(rs, offset, size) ==> |Listing(rs)| >= offset + size && |Window(Listing(rs), offset, size)| == size
  {
  }

  // ----- The client

  function Concat(parts: seq<string>): string {
    if parts == [] then "" else Concat(parts[..|parts| - 1]) + parts[|parts| - 1]
  }

  lemma ConcatMore(parts: seq<string>, part: string)
    ensures Concat(parts + [part]) == Concat(parts) + part
  {
    assert (parts + [part])[..|parts|] == parts;
  }

  /** The listing ends with a block, and its last resource has attributes. */
  predicate OneBlockTooMany(rs: seq<Resource>, chunk: nat)
    requires chunk > 0
  {
    rs != [] && |Listing(rs)| % chunk == 0 && rs[|rs| - 1].attributes != ""
  }

  /** The block size a server is asked for: what the option can state. */
  method StatedSize(size: nat) returns (s: nat)
    requires 16 <= size <= 2048
    ensures CoapPacket.BlockSize(size) ==> s == size
    ensures CoapPacket.BlockSize(s) && s <= size < 2 * s
  {
    var log := CoapOption.Log2(size / 16);
    CoapReceive.SmallLog(size / 16);
    CoapReceive.BlockSizes(size, Pow2(log));
    s := 16;
    for i := 0 to log
      invariant s == 16 * Pow2(i)
    {
      s := 2 * s;
    }
  }

  /** Asks for one block after another as long as there are more, with confirmed answers; the handler
      gets the blocks in order. Their concatenation is the listing, followed by an error message
      exactly when the last block is full and ends with attributes. */
  method BlockingRequest(rs: seq<Resource>, buffer: array<char>, chunk: nat) returns (blocks: seq<string>)
    requires CoapPacket.BlockSize(chunk) && chunk < buffer.Length && |Listing(rs)| < 0x1_0000
    modifies buffer
    ensures Concat(blocks) == Listing(rs) + (if OneBlockTooMany(rs, chunk) then OUT_OF_SCOPE else "")
    ensures forall n | 0 <= n < |blocks| :: blocks[n] == Reply(rs, n * chunk, chunk)
  {
    hide Listing, Window, More, Reply, Concat, OneBlockTooMany;
    blocks := [];
    var blockNum, more: bool := 0, true;
    var size := StatedSize(chunk);
    StartsEmpty(rs);
    while more
      invariant blockNum == |blocks|
      invariant forall n | 0 <= n < |blocks| :: blocks[n] == Reply(rs, n * chunk, chunk)
      invariant more ==> blockNum * chunk <= |Listing(rs)| && Concat(blocks) == Listing(rs)[..blockNum * chunk]
      invariant more && blockNum > 0 && blockNum * chunk == |Listing(rs)| ==> rs != [] && rs[|rs| - 1].attributes != ""
      invariant !more ==> Concat(blocks) == Listing(rs) + (if OneBlockTooMany(rs, chunk) then OUT_OF_SCOPE else "")
      decreases |Listing(rs)| + 1 - blockNum * chunk, more
    {
      var r := Receive(rs, buffer, chunk, if blockNum == 0 then First else BlockOf(blockNum, size));
      ConcatMore(blocks, r.payload);
      NextBlock(rs, blockNum, chunk);
      if r.num == blockNum {
        blocks := blocks + [r.payload];
        blockNum := blockNum + 1;
      }
      more := r.more;
    }
  }

  lemma StartsEmpty(rs: seq<Resource>)
    ensures Concat([]) == "" == Listing(rs)[..0]
  {
  }

  lemma NextBlock(rs: seq<Resource>, n: nat, chunk: nat)
    requires 16 <= chunk && n * chunk <= |Listing(rs)|
    requires n > 0 && n * chunk == |Listing(rs)| ==> rs != [] && rs[|rs| - 1].attributes != ""
    ensures (n + 1) * chunk == n * chunk + chunk
    ensures var whole, offset := Listing(rs), n * chunk;
      if More(rs, offset, chunk) then
        && offset + chunk <= |whole| && whole[..offset] + Reply(rs, offset, chunk) == whole[..offset + chunk]
        && (offset + chunk == |whole| ==> rs != [] && rs[|rs| - 1].attributes != "")
      else
        whole[..offset] + Reply(rs, offset, chunk) == whole + (if OneBlockTooMany(rs, chunk) then OUT_OF_SCOPE else "")
  {
    hide Listing;
    var whole, offset := Listing(rs), n * chunk;
    NextMultiple(n, chunk);
    Multiples(n, chunk, |whole|);
    ListingPrefix(rs, 0);
    if offset < |whole| {
      TakeWindow(whole, offset, chunk);
    } else {
      assert whole[..offset] == whole;
      assert n == 0 ==> offset == 0;
    }
  }

  lemma Multiples(n: nat, chunk: nat, length: nat)
    requires chunk > 0 && n * chunk <= length
    ensures length <= n * chunk + chunk ==> (length % chunk == 0 <==> length == n * chunk || length == n * chunk + chunk)
  {
    if length <= n * chunk + chunk {
      var d := length - n * chunk;
      Remainder(n, chunk, d);
    }
  }

  lemma {:induction false} Remainder(n: nat, chunk: nat, d: nat)
    requires chunk > 0
    ensures (n * chunk + d) % chunk == d % chunk
  {
    if n > 0 {
      Remainder(n - 1, chunk, d);
      NextMultiple(n - 1, chunk);
      AddChunk((n - 1) * chunk + d, chunk);
    }
  }

  lemma AddChunk(a: nat, chunk: nat)
    requires chunk > 0
    ensures (a + chunk) % chunk == a % chunk
  {
    NextMultiple(a / chunk, chunk);
    Divides(a + chunk, chunk, a / chunk + 1, a % chunk);
  }

  lemma TakeWindow(text: string, offset: nat, size: nat)
    requires offset < |text|
    ensures text[..offset] + Window(text, offset, size) == if offset + size < |text| then text[..offset + size] else text
  {
  }
}
