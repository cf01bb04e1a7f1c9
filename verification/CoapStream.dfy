/** A list of options as one stream of bytes, and reading it back. */
module CoapStream {

  import opened Bytes
  import opened CoapOption

  // ----- Encoding

  ghost predicate Sorted(current: nat, os: seq<Option>)
    decreases |os|
  {
    os != [] ==> current <= os[0].number && Sorted(os[0].number, os[1..])
  }

  function Last(current: nat, os: seq<Option>): nat {
    if os == [] then current else os[|os| - 1].number
  }

  function EncodeList(current: nat, os: seq<Option>): seq<byte>
    requires Sorted(current, os)
    decreases |os|
  {
    if os == [] then [] else EncodeOption(current, os[0]) + EncodeList(os[0].number, os[1..])
  }

  lemma {:induction false} EncodeMore(current: nat, os: seq<Option>, o: Option)
    requires Sorted(current, os) && Last(current, os) <= o.number
    ensures Sorted(current, os + [o])
    ensures EncodeList(current, os + [o]) == EncodeList(current, os) + EncodeOption(Last(current, os), o)
    decreases |os|
  {
    hide EncodeOption;
    if os == [] {
      assert os + [o] == [o] && [o][1..] == [];
    } else {
      assert (os + [o])[1..] == os[1..] + [o];
      assert Last(os[0].number, os[1..]) == Last(current, os);
      EncodeMore(os[0].number, os[1..], o);
    }
  }

  // ----- Decoding

  datatype Read = End | Outside | Item(number: nat, at: nat, length: nat)

  datatype Length = TooShort | Length(length: nat, at: nat)

  /** The length in the bytes from `i` on that continue `n`, and the position behind them. */
  function ReadExtension(data: seq<byte>, i: nat, n: nat): (r: Length)
    ensures r.Length? ==> i < r.at <= |data| && n <= r.length
    decreases |data| - i
  {
    if i >= |data| then TooShort
    else if data[i] == 255 then ReadExtension(data, i + 1, n + 255)
    else Length(n + data[i], i + 1)
  }

  function ReadLength(data: seq<byte>, i: nat): (r: Length)
    requires i < |data|
    ensures r.Length? ==> i < r.at <= |data|
  {
    if data[i] % 16 < 15 then Length(data[i] % 16, i + 1) else ReadExtension(data, i + 1, 15)
  }

  /** How long a jump is, and how far it goes. */
  function ReadJump(data: seq<byte>, i: nat): (r: (nat, nat))
    requires i < |data|
    ensures r.0 <= 3
  {
    if data[i] == JUMP_1 then (1, 15)
    else if data[i] == JUMP_2 then (2, if i + 1 < |data| then (data[i + 1] as int + 2) * 8 else 0)
    else if data[i] == JUMP_3 then (3, if i + 2 < |data| then (data[i + 1] as int * 0x100 + data[i + 2] as int + 258) * 8 else 0)
    else (0, 0)
  }

  /** The option at `i`: the terminator, an option whose bytes are all there, or neither. */
  function ReadOption(data: seq<byte>, i: nat, current: nat): (r: Read)
    ensures r.Item? ==> i < r.at && r.at + r.length <= |data| && current <= r.number
  {
    if i >= |data| then Outside
    else if data[i] == TERMINATOR then End
    else
      var (n, jump) := ReadJump(data, i);
      if i + n >= |data| then Outside
      else
        var length := ReadLength(data, i + n);
        if length.TooShort? || length.at + length.length > |data| then Outside
        else Item(current + jump + data[i + n] / 16, length.at, length.length)
  }

  // ----- Reading back what was written

  /** No option begins with a byte that means a jump or the end. */
  lemma HeaderIsNoJump(delta: nat, length: nat)
    requires delta < 15
    ensures Header(delta, length)[0] < TERMINATOR
  {
  }

  lemma {:induction false} ReadsExtension(pre: seq<byte>, n: nat, post: seq<byte>, k: nat)
    ensures ReadExtension(pre + Extension(n) + post, |pre|, k) == Length(k + n, |pre| + |Extension(n)|)
    decreases n
  {
    var data := pre + Extension(n) + post;
    if n > 254 {
      ReadsExtension(pre + [255], n - 255, post, k + 255);
      assert data == pre + [255] + Extension(n - 255) + post;
      assert data[|pre|] == 255;
    } else {
      assert data[|pre|] == n;
    }
  }

  lemma ReadsLength(pre: seq<byte>, delta: nat, length: nat, post: seq<byte>)
    ensures var data := pre + Header(delta, length) + post;
      && ReadLength(data, |pre|) == Length(length, |pre| + |Header(delta, length)|)
      && data[|pre|] / 16 == delta % 16 && (delta < 15 ==> data[|pre|] < TERMINATOR)
  {
    hide Extension, ReadExtension;
    var data := pre + Header(delta, length) + post;
    assert data[|pre|] == Header(delta, length)[0];
    if length >= 15 {
      ReadsExtension(pre + [delta % 16 * 16 + 15], length - 15, post, 15);
      assert data == pre + [delta % 16 * 16 + 15] + Extension(length - 15) + post;
    }
  }

  /** How far a jump goes for a receiver. */
  function JumpRead(delta: nat): nat {
    if delta < 15 then 0
    else if delta < 30 then 15
    else if delta < 2064 then (delta / 8 - 2 + 2) * 8
    else (delta / 8 - 258 + 258) * 8
  }

  /** By how much a receiver goes on for a difference. */
  function DeltaRead(delta: nat): nat { JumpRead(delta) + (delta - JumpSent(delta)) % 16 }

  lemma ReadsJump(pre: seq<byte>, delta: nat, post: seq<byte>)
    requires delta < 0x1_0000 && post != [] && (delta < 15 ==> post[0] < TERMINATOR)
    ensures var data := pre + Jump(delta) + post;
      ReadJump(data, |pre|) == (|Jump(delta)|, JumpRead(delta)) && data[|pre|] != TERMINATOR
  {
    var data := pre + Jump(delta) + post;
    if delta < 15 {
      assert data[|pre|] == post[0];
    } else {
      assert forall k | 0 <= k < |Jump(delta)| :: data[|pre| + k] == Jump(delta)[k];
    }
  }

  /** An option is read with its value, and with the number that the receiver makes of the difference. */
  lemma ReadsOption(pre: seq<byte>, current: nat, o: Option, post: seq<byte>)
    requires current <= o.number < 0x1_0000
    ensures var data := pre + EncodeOption(current, o) + post;
      var end := |pre| + |EncodeOption(current, o)|;
      && ReadOption(data, |pre|, current) ==
           Item(current + DeltaRead(o.number - current), end - |o.value|, |o.value|)
      && data[end - |o.value|..end] == o.value
  {
    hide Extension, Header, ReadLength, Jump, JumpSent, JumpRead, ReadJump, EncodeOption;
    var delta := o.number - current;
    var jump, header := Jump(delta), Header(delta - JumpSent(delta), |o.value|);
    NoJumpSent(delta);
    OptionParts(current, o);
    Regroup(jump, header, o.value);
    Regroup(jump, header + o.value, post);
    Regroup(header, o.value, post);
    Regroup(pre, jump + (header + o.value), post);
    Regroup(pre, jump, header + (o.value + post));
    Regroup(pre + jump, header, o.value + post);
    ReadsLength(pre + jump, delta - JumpSent(delta), |o.value|, o.value + post);
    FirstOfBoth(pre + jump, header + (o.value + post));
    ReadsJump(pre, delta, header + (o.value + post));
    LastOfThree(pre + jump + header, o.value, post);
    Regroup(pre + jump + header, o.value, post);
  }

  lemma OptionParts(current: nat, o: Option)
    requires current <= o.number
    ensures var delta := o.number - current;
      EncodeOption(current, o) == Jump(delta) + Header(delta - JumpSent(delta), |o.value|) + o.value
  {
  }

  lemma FirstOfBoth(a: seq<byte>, b: seq<byte>)
    requires b != []
    ensures (a + b)[|a|] == b[0]
  {
  }

  lemma LastOfThree(a: seq<byte>, b: seq<byte>, c: seq<byte>)
    ensures (a + b + c)[|a|..|a| + |b|] == b
  {
  }

  lemma NoJumpSent(delta: nat)
    ensures delta < 15 ==> JumpSent(delta) == 0
  {
  }

  /** Differences below 30 are read as they were meant. */
  lemma ShortDeltaIsRead(delta: nat)
    requires delta < 30
    ensures DeltaRead(delta) == delta
  {
  }

  /** The second form of a jump does not go on by what is sent: Proxy-Uri is read as another option
      exactly when it needs one. */
  lemma ProxyUriIsRead(current: nat)
    requires current <= 35
    ensures DeltaRead(35 - current) == 35 - current <==> 35 - current < 30
  {
  }
}
