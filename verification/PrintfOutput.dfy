/** printf's bounded output: characters go to consecutive indices, those at or past the bound are dropped. */
module PrintfOutput {
  /** A buffer after text was sent to index idx and up; only indices below the bound are written. */
  function Sent(before: seq<char>, idx: nat, bound: nat, text: seq<char>): (after: seq<char>)
    ensures |after| == |before|
    ensures forall i :: 0 <= i < |before| ==>
      after[i] == if idx <= i < idx + |text| && i < bound then text[i - idx] else before[i]
  {
    seq(|before|, i requires 0 <= i < |before| =>
      if idx <= i < idx + |text| && i < bound then text[i - idx] else before[i])
  }

  /** Sending two texts one after the other is sending their concatenation. */
  lemma SentTwice(before: seq<char>, idx: nat, bound: nat, a: seq<char>, b: seq<char>)
    ensures Sent(Sent(before, idx, bound, a), idx + |a|, bound, b) == Sent(before, idx, bound, a + b)
  {
  }

  /** _out_buffer */
  method OutBuffer(character: char, buffer: array<char>, idx: nat, maxlen: nat)
    requires maxlen <= buffer.Length
    modifies buffer
    ensures buffer[..] == Sent(old(buffer[..]), idx, maxlen, [character])
  {
    if idx < maxlen {
      buffer[idx] := character;
    }
  }

  function Repeat(c: char, n: int): (s: seq<char>)
    ensures |s| == if n < 0 then 0 else n
    ensures forall i :: 0 <= i < |s| ==> s[i] == c
  {
    if n <= 0 then [] else Repeat(c, n - 1) + [c]
  }

  /** Sends n copies of a character, as the padding loops do. */
  method Pad(character: char, n: int, buffer: array<char>, start: nat, maxlen: nat) returns (idx: nat)
    requires maxlen <= buffer.Length
    modifies buffer
    ensures idx == start + |Repeat(character, n)|
    ensures buffer[..] == Sent(old(buffer[..]), start, maxlen, Repeat(character, n))
  {
    idx := start;
    ghost var i := 0;
    while idx - start < n
      invariant i == idx - start && (n > 0 ==> i <= n) && (n <= 0 ==> i == 0)
      invariant buffer[..] == Sent(old(buffer[..]), start, maxlen, Repeat(character, i))
    {
      SentTwice(old(buffer[..]), start, maxlen, Repeat(character, i), [character]);
      OutBuffer(character, buffer, idx, maxlen);
      idx := idx + 1;
      i := i + 1;
    }
  }

  function Reversed(s: seq<char>): (r: seq<char>)
    ensures |r| == |s|
    ensures forall i :: 0 <= i < |s| ==> r[i] == s[|s| - 1 - i]
  {
    if s == [] then [] else Reversed(s[1..]) + [s[0]]
  }

  lemma ReversedConcat(a: seq<char>, b: seq<char>)
    ensures Reversed(a + b) == Reversed(b) + Reversed(a)
  {
  }

  /** _out_rev's text: the reversed buffer, padded with spaces on the left unless zeros or '-' take that place. */
  function RevText(reversed: seq<char>, width: int, left: bool, zeropad: bool): seq<char> {
    var text := Reversed(reversed);
    var pad := Repeat(' ', width - |reversed|);
    if left then text + pad else if zeropad then text else pad + text
  }

  /** The middle loop of _out_rev. */
  method SendReversed(buffer: array<char>, start: nat, maxlen: nat, buf: array<char>, length: nat) returns (idx: nat)
    requires maxlen <= buffer.Length && length <= buf.Length && buf != buffer
    modifies buffer
    ensures idx == start + length
    ensures buffer[..] == Sent(old(buffer[..]), start, maxlen, Reversed(buf[..length]))
  {
    ghost var all := buf[..length];
    idx := start;
    var len := length;
    while len > 0
      invariant 0 <= len <= length && idx == start + length - len
      invariant buf[..length] == all
      invariant buffer[..] == Sent(old(buffer[..]), start, maxlen, Reversed(all[len..]))
    {
      len := len - 1;
      assert all[len..] == [all[len]] + all[len + 1..];
      SentTwice(old(buffer[..]), start, maxlen, Reversed(all[len + 1..]), [buf[len]]);
      OutBuffer(buf[len], buffer, idx, maxlen);
      idx := idx + 1;
    }
  }

  /** _out_rev */
  method OutRev(buffer: array<char>, start: nat, maxlen: nat, buf: array<char>, length: nat,
                width: int, left: bool, zeropad: bool)
    returns (idx: nat)
    requires maxlen <= buffer.Length && length <= buf.Length && buf != buffer
    modifies buffer
    ensures idx == start + |RevText(buf[..length], width, left, zeropad)|
    ensures buffer[..] == Sent(old(buffer[..]), start, maxlen, RevText(buf[..length], width, left, zeropad))
  {
    hide Sent, Reversed, Repeat;
    ghost var was, pad, text := buffer[..], Repeat(' ', width - length), Reversed(buf[..length]);
    idx := start;
    if !left && !zeropad {
      idx := Pad(' ', width - length, buffer, idx, maxlen);
      SentTwice(was, start, maxlen, pad, text);
    }
    idx := SendReversed(buffer, idx, maxlen, buf, length);
    if left {
      idx := Pad(' ', width - length, buffer, idx, maxlen);
      SentTwice(was, start, maxlen, text, pad);
    }
  }
}
