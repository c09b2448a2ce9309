/** Little-endian words, as the 80386 stores them: block tables, inode records and directory
    entries reach the disk in this form. */
module Bytes {
  newtype byte = x: int | 0 <= x < 256
  const U32 := 0x1_0000_0000
  type word = w: nat | w < U32

  function Digit(w: word, i: nat): byte
    requires i < 4
  {
    if i == 0 then (w % 256) as byte
    else if i == 1 then (w / 256 % 256) as byte
    else if i == 2 then (w / 65536 % 256) as byte
    else (w / 16777216) as byte
  }

  function WordAt(bs: seq<byte>, at: nat): word
    requires at + 4 <= |bs|
  {
    bs[at] as int + 256 * bs[at + 1] as int + 65536 * bs[at + 2] as int + 16777216 * bs[at + 3] as int
  }

  function WordsToBytes(ws: seq<word>): (bs: seq<byte>)
    ensures |bs| == 4 * |ws|
  {
    seq(4 * |ws|, i requires 0 <= i < 4 * |ws| => Digit(ws[i / 4], i % 4))
  }

  function BytesToWords(bs: seq<byte>): (ws: seq<word>)
    requires |bs| % 4 == 0
    ensures |ws| == |bs| / 4
  {
    seq(|bs| / 4, j requires 0 <= j < |bs| / 4 => WordAt(bs, 4 * j))
  }

  lemma DigitsRecompose(w: word)
    ensures Digit(w, 0) as int + 256 * Digit(w, 1) as int
         + 65536 * Digit(w, 2) as int + 16777216 * Digit(w, 3) as int == w
  {
    assert w == w % 256 + 256 * (w / 256);
    assert w / 256 == w / 256 % 256 + 256 * (w / 256 / 256);
    assert w / 256 / 256 == w / 65536;
    assert w / 65536 == w / 65536 % 256 + 256 * (w / 65536 / 256);
    assert w / 65536 / 256 == w / 16777216;
  }

  lemma WordsToBytesAt(ws: seq<word>, j: nat)
    requires j < |ws|
    ensures WordAt(WordsToBytes(ws), 4 * j) == ws[j]
  {
    var bs := WordsToBytes(ws);
    assert bs[4 * j] == Digit(ws[j], 0);
    assert bs[4 * j + 1] == Digit(ws[j], 1);
    assert bs[4 * j + 2] == Digit(ws[j], 2);
    assert bs[4 * j + 3] == Digit(ws[j], 3);
    DigitsRecompose(ws[j]);
  }

  /** The low byte comes first. */
  lemma LowByteFirst(bs: seq<byte>, at: nat, w: word)
    requires at + 4 <= |bs|
    ensures WordAt(bs, at) % 256 == bs[at] as int && WordAt(bs, at) / 16777216 == bs[at + 3] as int
    ensures WordsToBytes([w])[0] as int == w % 256 && WordsToBytes([w])[3] as int == w / 16777216
  {
  }

  /** What a table of words becomes on the disk reads back as the same table. */
  lemma WordsRoundTrip(ws: seq<word>)
    ensures BytesToWords(WordsToBytes(ws)) == ws
  {
    forall j | 0 <= j < |ws|
      ensures BytesToWords(WordsToBytes(ws))[j] == ws[j]
    {
      WordsToBytesAt(ws, j);
    }
  }
}
