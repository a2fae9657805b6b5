/**
 * The message codec shared by the Huffman and the Shannon-Fano coder: a code
 * table is a list of entries, a message is encoded by concatenating the code
 * of each of its characters, and a bit string is decoded by accumulating bits
 * until they spell a code word. Bits are characters, as in the source: the
 * decoder accepts any string, not only one made of '0' and '1'.
 */
module Codec {
  import opened Folds

  /** One row of a code table. */
  datatype Entry = Entry(symbol: char, code: string, probability: real, count: nat)

  predicate IsPrefix(u: string, w: string)
  {
    |u| <= |w| && u == w[..|u|]
  }

  /** No code word is a prefix of another entry's code word (so, in particular, no two are equal). */
  predicate PrefixFree(table: seq<Entry>)
  {
    forall i, j :: 0 <= i < |table| && 0 <= j < |table| && i != j ==> !IsPrefix(table[i].code, table[j].code)
  }

  predicate NonEmptyCodes(table: seq<Entry>)
  {
    forall i :: 0 <= i < |table| ==> table[i].code != []
  }

  predicate HasSymbol(table: seq<Entry>, c: char)
  {
    exists i :: 0 <= i < |table| && table[i].symbol == c
  }

  predicate IsCodeWord(table: seq<Entry>, w: string)
  {
    exists i :: 0 <= i < |table| && table[i].code == w
  }

  /** Position of the first entry for `c`, or `|table|` when there is none. */
  function FindSymbol(table: seq<Entry>, c: char): (k: nat)
    ensures k <= |table|
    ensures k < |table| <==> HasSymbol(table, c)
    ensures k < |table| ==> table[k].symbol == c
    ensures forall j :: 0 <= j < k ==> table[j].symbol != c
    decreases |table|
  {
    if table == [] then 0
    else if table[0].symbol == c then 0
    else 1 + FindSymbol(table[1..], c)
  }

  /** The code of the first entry for `c`; the empty string when `c` has no entry. */
  function CodeOf(table: seq<Entry>, c: char): (code: string)
    ensures !HasSymbol(table, c) ==> code == []
    ensures HasSymbol(table, c) ==> IsCodeWord(table, code)
    ensures NonEmptyCodes(table) ==> (code != [] <==> HasSymbol(table, c))
  {
    var k := FindSymbol(table, c);
    if k < |table| then table[k].code else []
  }

  /** The concatenation of the codes of the message's characters. */
  function Encode(message: string, table: seq<Entry>): (bits: string)
    ensures Known(message, table) == [] ==> bits == []
    ensures NonEmptyCodes(table) ==> |bits| >= |Known(message, table)|
    decreases |message|
  {
    if message == [] then [] else CodeOf(table, message[0]) + Encode(message[1..], table)
  }

  /** The characters of `message` that have an entry, in order. */
  function Known(message: string, table: seq<Entry>): (r: string)
    decreases |message|
  {
    if message == [] then []
    else if HasSymbol(table, message[0]) then [message[0]] + Known(message[1..], table)
    else Known(message[1..], table)
  }

  /**
   * The decoder's dictionary from code word to symbol; an entry overrides an
   * earlier entry with the same code word.
   */
  function CodeIndex(table: seq<Entry>): (index: map<string, char>)
    ensures index.Keys == set i | 0 <= i < |table| :: table[i].code
    decreases |table|
  {
    if table == [] then map[]
    else CodeIndex(table[..|table| - 1])[table[|table| - 1].code := table[|table| - 1].symbol]
  }

  /**
   * Decoding of `bits` when `current` holds the bits read since the last
   * symbol was emitted: a symbol is emitted, and `current` cleared, as soon
   * as `current` spells a code word; bits left in `current` at the end are
   * dropped.
   */
  function DecodeFrom(index: map<string, char>, bits: string, current: string): (decoded: string)
    ensures |decoded| <= |bits|
    decreases |bits|
  {
    if bits == [] then []
    else
      var candidate := current + [bits[0]];
      if candidate in index then [index[candidate]] + DecodeFrom(index, bits[1..], [])
      else DecodeFrom(index, bits[1..], candidate)
  }

  function Decode(bits: string, table: seq<Entry>): string
  {
    DecodeFrom(CodeIndex(table), bits, [])
  }

  /** The decoding loop, with its `decoded` and `currentCode` accumulators. */
  method DecodeMessage(encoded: string, table: seq<Entry>) returns (decoded: string)
    ensures decoded == Decode(encoded, table)
    ensures |decoded| <= |encoded|
  {
    decoded := [];
    var currentCode := [];
    var codes := CodeIndex(table);
    for i := 0 to |encoded|
      invariant decoded + DecodeFrom(codes, encoded[i..], currentCode) == Decode(encoded, table)
    {
      assert encoded[i..][0] == encoded[i] && encoded[i..][1..] == encoded[i + 1..];
      currentCode := currentCode + [encoded[i]];
      if currentCode in codes {
        decoded := decoded + [codes[currentCode]];
        currentCode := [];
      }
    }
    assert encoded[|encoded|..] == [];
  }

  /** Average code length: the sum of probability times code length. */
  function AverageCodeLength(table: seq<Entry>): (average: real)
    ensures (forall i :: 0 <= i < |table| ==> table[i].probability >= 0.0) ==> average >= 0.0
  {
    SumNonNegative(table, WeightedLength);
    Sum(table, WeightedLength)
  }

  function WeightedLength(e: Entry): real { e.probability * |e.code| as real }

  function EntryProbability(e: Entry): real { e.probability }

  function TableProbability(table: seq<Entry>): real
  {
    Sum(table, EntryProbability)
  }

  // ---------------------------------------------------------------- encoding

  lemma {:induction false} EncodeAppend(a: string, b: string, table: seq<Entry>)
    ensures Encode(a + b, table) == Encode(a, table) + Encode(b, table)
    decreases |a|
  {
    if a == [] {
      assert a + b == b;
    } else {
      assert (a + b)[0] == a[0] && (a + b)[1..] == a[1..] + b;
      EncodeAppend(a[1..], b, table);
    }
  }

  /** A character without an entry contributes nothing to the encoding. */
  lemma EncodeSkipsUnknown(a: string, c: char, b: string, table: seq<Entry>)
    requires !HasSymbol(table, c)
    ensures Encode(a + [c] + b, table) == Encode(a + b, table)
  {
    assert FindSymbol(table, c) == |table|;
    assert Encode([c], table) == [] by {
      assert [c][1..] == [];
      assert Encode([c], table) == CodeOf(table, c) + Encode([], table);
    }
    EncodeAppend(a + [c], b, table);
    EncodeAppend(a, [c], table);
    EncodeAppend(a, b, table);
  }

  /** A character with an entry is encoded by the code of its first entry. */
  lemma EncodeKnown(c: char, table: seq<Entry>)
    requires HasSymbol(table, c)
    ensures FindSymbol(table, c) < |table|
    ensures Encode([c], table) == table[FindSymbol(table, c)].code
  {
    var i :| 0 <= i < |table| && table[i].symbol == c;
    assert Encode([c], table) == CodeOf(table, c) + Encode([], table);
  }

  // ------------------------------------------------------------------ lookup

  lemma {:induction false} CodeIndexLookup(table: seq<Entry>, k: nat)
    requires PrefixFree(table) && k < |table|
    ensures table[k].code in CodeIndex(table)
    ensures CodeIndex(table)[table[k].code] == table[k].symbol
    decreases |table|
  {
    var n := |table|;
    if k < n - 1 {
      var init := table[..n - 1];
      assert PrefixFree(init) by {
        forall i, j | 0 <= i < |init| && 0 <= j < |init| && i != j
          ensures !IsPrefix(init[i].code, init[j].code)
        {
          assert init[i] == table[i] && init[j] == table[j];
        }
      }
      assert init[k] == table[k];
      CodeIndexLookup(init, k);
      assert !IsPrefix(table[k].code, table[n - 1].code);
    }
  }

  // ---------------------------------------------------------------- decoding

  /**
   * Once the accumulated bits are a proper prefix of a code word, reading the
   * rest of that code word emits exactly its symbol and clears the
   * accumulator: no shorter prefix is itself a code word.
   */
  lemma {:induction false} DecodeCodeWord(table: seq<Entry>, k: nat, i: nat, tail: string)
    requires PrefixFree(table) && k < |table| && i < |table[k].code|
    ensures DecodeFrom(CodeIndex(table), table[k].code[i..] + tail, table[k].code[..i])
         == [table[k].symbol] + DecodeFrom(CodeIndex(table), tail, [])
    decreases |table[k].code| - i
  {
    var index := CodeIndex(table);
    var w := table[k].code;
    var bits := w[i..] + tail;
    assert bits[0] == w[i] && bits[1..] == w[i + 1..] + tail;
    assert w[..i] + [w[i]] == w[..i + 1];
    if i + 1 == |w| {
      assert w[..i + 1] == w;
      assert w[i + 1..] + tail == tail;
      CodeIndexLookup(table, k);
    } else {
      forall j | 0 <= j < |table|
        ensures table[j].code != w[..i + 1]
      {
        if j != k {
          assert !IsPrefix(table[j].code, w);
        }
      }
      DecodeCodeWord(table, k, i + 1, tail);
    }
  }

  /**
   * Decoding an encoded message gives back the message's known characters;
   * whatever follows the encoding is decoded on its own.
   */
  lemma {:induction false} DecodeEncoded(table: seq<Entry>, message: string, tail: string)
    requires PrefixFree(table) && NonEmptyCodes(table)
    ensures DecodeFrom(CodeIndex(table), Encode(message, table) + tail, [])
         == Known(message, table) + DecodeFrom(CodeIndex(table), tail, [])
    decreases |message|
  {
    var index := CodeIndex(table);
    var after := DecodeFrom(index, tail, []);
    if message == [] {
      assert Encode(message, table) + tail == tail;
    } else {
      var c := message[0];
      var rest := Encode(message[1..], table) + tail;
      var known := Known(message[1..], table);
      assert Encode(message, table) + tail == CodeOf(table, c) + rest by {
        EncodeStep(message, table, tail);
      }
      assert DecodeFrom(index, rest, []) == known + after by {
        DecodeEncoded(table, message[1..], tail);
      }
      assert Known(message, table) == (if HasSymbol(table, c) then [c] else []) + known by {
        KnownStep(message, table);
      }
      DecodeOneCode(table, c, rest, known, after);
    }
  }

  /**
   * Decoding the code of one character ahead of the encoding of the rest
   * emits that character, when it has an entry, ahead of the rest.
   */
  lemma DecodeOneCode(table: seq<Entry>, c: char, rest: string, known: string, after: string)
    requires PrefixFree(table) && NonEmptyCodes(table)
    requires DecodeFrom(CodeIndex(table), rest, []) == known + after
    ensures DecodeFrom(CodeIndex(table), CodeOf(table, c) + rest, [])
         == ((if HasSymbol(table, c) then [c] else []) + known) + after
  {
    if HasSymbol(table, c) {
      DecodeSymbol(table, c, rest);
      ConsAppend(c, known, after);
    } else {
      assert CodeOf(table, c) + rest == rest;
    }
  }

  /** The encoding of a message, followed by anything, starts with the code of its first character. */
  lemma EncodeStep(message: string, table: seq<Entry>, tail: string)
    requires message != []
    ensures Encode(message, table) + tail == CodeOf(table, message[0]) + (Encode(message[1..], table) + tail)
  {
  }

  /** The first character of a message is kept exactly when it has an entry. */
  lemma KnownStep(message: string, table: seq<Entry>)
    requires message != []
    ensures Known(message, table) == (if HasSymbol(table, message[0]) then [message[0]] else []) + Known(message[1..], table)
  {
  }

  lemma ConsAppend(c: char, a: string, b: string)
    ensures ([c] + a) + b == [c] + (a + b)
  {
  }

  /** Decoding the code of a character that has an entry emits that character. */
  lemma DecodeSymbol(table: seq<Entry>, c: char, rest: string)
    requires PrefixFree(table) && NonEmptyCodes(table) && HasSymbol(table, c)
    ensures DecodeFrom(CodeIndex(table), CodeOf(table, c) + rest, []) == [c] + DecodeFrom(CodeIndex(table), rest, [])
  {
    var k := FindSymbol(table, c);
    var w := table[k].code;
    assert w[0..] == w && w[..0] == [];
    DecodeCodeWord(table, k, 0, rest);
  }

  lemma {:induction false} KnownAll(message: string, table: seq<Entry>)
    requires forall c :: c in message ==> HasSymbol(table, c)
    ensures Known(message, table) == message
    decreases |message|
  {
    if message != [] {
      assert message == [message[0]] + message[1..];
      KnownAll(message[1..], table);
    }
  }

  /**
   * The round trip: for a prefix-free table with non-empty codes, decoding
   * the encoding of a message gives the message with the characters that
   * have no entry dropped, and gives the message itself when every character
   * has an entry.
   */
  lemma RoundTrip(table: seq<Entry>, message: string)
    requires PrefixFree(table) && NonEmptyCodes(table)
    ensures Decode(Encode(message, table), table) == Known(message, table)
    ensures (forall c :: c in message ==> HasSymbol(table, c)) ==> Decode(Encode(message, table), table) == message
  {
    DecodeEncoded(table, message, []);
    assert Encode(message, table) + [] == Encode(message, table);
    if forall c :: c in message ==> HasSymbol(table, c) {
      KnownAll(message, table);
    }
  }

  lemma {:induction false} UnmatchedTail(table: seq<Entry>, tail: string, i: nat)
    requires i <= |tail|
    requires forall j :: i < j <= |tail| ==> !IsCodeWord(table, tail[..j])
    ensures DecodeFrom(CodeIndex(table), tail[i..], tail[..i]) == []
    decreases |tail| - i
  {
    if i < |tail| {
      assert tail[..i] + [tail[i..][0]] == tail[..i + 1];
      assert tail[i..][1..] == tail[i + 1..];
      assert !IsCodeWord(table, tail[..i + 1]);
      UnmatchedTail(table, tail, i + 1);
    }
  }

  /** Trailing bits that never complete a code word are silently dropped. */
  lemma TrailingBitsDropped(table: seq<Entry>, message: string, tail: string)
    requires PrefixFree(table) && NonEmptyCodes(table)
    requires forall j :: 0 < j <= |tail| ==> !IsCodeWord(table, tail[..j])
    ensures Decode(Encode(message, table) + tail, table) == Known(message, table)
  {
    DecodeEncoded(table, message, tail);
    UnmatchedTail(table, tail, 0);
    assert tail[0..] == tail && tail[..0] == [];
  }

  // ---------------------------------------------------------- average length

  /** With non-empty codes and non-negative probabilities every entry weighs at least its probability. */
  lemma {:induction false} AverageAtLeastProbability(table: seq<Entry>)
    requires NonEmptyCodes(table)
    requires forall i :: 0 <= i < |table| ==> table[i].probability >= 0.0
    ensures AverageCodeLength(table) >= TableProbability(table)
    decreases |table|
  {
    if table != [] {
      var n := |table|;
      var e := table[n - 1];
      assert forall i :: 0 <= i < n - 1 ==> table[..n - 1][i] == table[i];
      AverageAtLeastProbability(table[..n - 1]);
      assert |e.code| as real >= 1.0;
      assert e.probability * |e.code| as real >= e.probability * 1.0;
    }
  }

  /** A table whose codes are all empty has average length zero. */
  lemma {:induction false} AverageOfEmptyCodes(table: seq<Entry>)
    requires forall i :: 0 <= i < |table| ==> table[i].code == []
    ensures AverageCodeLength(table) == 0.0
    decreases |table|
  {
    if table != [] {
      var n := |table|;
      assert forall i :: 0 <= i < n - 1 ==> table[..n - 1][i] == table[i];
      AverageOfEmptyCodes(table[..n - 1]);
    }
  }
}
