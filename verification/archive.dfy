/**
 * The `.snap` text archive. `OutputArchive` writes each number followed by a
 * space and `InputArchive` reads them back in the same order, so the archive
 * is modelled as the sequence of numbers it holds. Reading a field consumes
 * one number; a number that is missing or too wide for the field is an error.
 */
module Archive {
  import opened Wrappers
  import opened Scalars

  type Tokens = seq<nat>

  datatype LoadError =
    | Truncated                                    // the archive ended before a field
    | OutOfRange(token: nat, bound: nat)           // a number too wide for its field
    | UnknownFunction(funcId: nat)                 // a FuncId outside the function table
    | GlobalCountMismatch(recorded: nat, live: nat) // more recorded globals than the module has

  /** `IA >> x` for an unsigned field whose values lie below `bound`. */
  function ReadField(toks: Tokens, bound: nat): (r: Result<(nat, Tokens), LoadError>)
    ensures r.Ok? <==> |toks| > 0 && toks[0] < bound
    ensures r.Ok? ==> r.value.0 < bound && r.value == (toks[0], toks[1..])
    ensures toks == [] ==> r == Err(Truncated)
  {
    if toks == [] then Err(Truncated)
    else if toks[0] >= bound then Err(OutOfRange(toks[0], bound))
    else Ok((toks[0], toks[1..]))
  }

  /** Reading a field from a stream that starts with a number that fits gives that number. */
  lemma ReadFieldCons(x: nat, rest: Tokens, bound: nat)
    requires x < bound
    ensures ReadField([x] + rest, bound) == Ok((x, rest))
  {
    assert ([x] + rest)[1..] == rest;
  }

  /** The numbers `save_value` writes for each value in turn. */
  function EncodeValues(vs: seq<Value>): (t: Tokens)
    ensures |t| == |vs|
    ensures forall i :: 0 <= i < |t| ==> t[i] < U64_BOUND
  {
    seq(|vs|, i requires 0 <= i < |vs| => SaveValue(vs[i]))
  }

  /**
   * `n` successive calls of `load_value`, each value read stored after those
   * in `read`; the result is the whole sequence read.
   */
  function DecodeValues(toks: Tokens, n: nat, read: seq<Value>): (r: Result<(seq<Value>, Tokens), LoadError>)
    ensures r.Ok? ==> |r.value.0| == |read| + n && |r.value.1| + n == |toks| && r.value.1 == toks[n..]
    decreases n
  {
    if n == 0 then Ok((read, toks))
    else match ReadField(toks, U64_BOUND)
      case Err(e) => Err(e)
      case Ok((t, rest)) => DecodeValues(rest, n - 1, read + [LoadValue(t)])
  }

  /** Each value cut down to its low 64 bits, as a save and load leave it. */
  function LowBits(vs: seq<Value>): (r: seq<Value>)
    ensures |r| == |vs|
    ensures forall i :: 0 <= i < |vs| ==> r[i] < U64_BOUND
  {
    seq(|vs|, i requires 0 <= i < |vs| => LoadValue(SaveValue(vs[i])))
  }

  /** Each value is cut to the number below 2^64 congruent to it modulo 2^64. */
  lemma LowBitsCongruent(vs: seq<Value>)
    ensures forall i :: 0 <= i < |vs| ==> (vs[i] - LowBits(vs)[i]) % U64_BOUND == 0
  {
    forall i | 0 <= i < |vs|
      ensures (vs[i] - LowBits(vs)[i]) % U64_BOUND == 0
    {
      assert LowBits(vs)[i] == SaveValue(vs[i]);
    }
  }

  /** Values that fit in 64 bits are not changed by a save and load. */
  lemma LowBitsKeepsNarrow(vs: seq<Value>)
    requires forall i :: 0 <= i < |vs| ==> vs[i] < U64_BOUND
    ensures LowBits(vs) == vs
  {
    forall i | 0 <= i < |vs|
      ensures LowBits(vs)[i] == vs[i]
    {
      ValueRoundTrip(vs[i]);
    }
  }

  /** The tokens of a non-empty sequence of values: the first value's, then the rest's. */
  lemma EncodeValuesCons(vs: seq<Value>)
    requires vs != []
    ensures EncodeValues(vs) == [SaveValue(vs[0])] + EncodeValues(vs[1..])
  {
    assert forall i :: 0 <= i < |vs| - 1 ==> EncodeValues(vs[1..])[i] == EncodeValues(vs)[i + 1];
  }

  /** The low bits of a non-empty sequence of values: the first value's, then the rest's. */
  lemma LowBitsCons(vs: seq<Value>)
    requires vs != []
    ensures LowBits(vs) == [LoadValue(SaveValue(vs[0]))] + LowBits(vs[1..])
  {
    assert forall i :: 0 <= i < |vs| - 1 ==> LowBits(vs[1..])[i] == LowBits(vs)[i + 1];
  }

  /** Reading values from a stream that starts with a written value reads its low 64 bits first. */
  lemma DecodeValuesAfterValue(v: Value, tail: Tokens, n: nat, read: seq<Value>)
    requires n > 0
    ensures DecodeValues([SaveValue(v)] + tail, n, read) == DecodeValues(tail, n - 1, read + [LoadValue(SaveValue(v))])
  {
    ReadFieldCons(SaveValue(v), tail, U64_BOUND);
  }

  /** Values read back after being written come out as their low 64 bits, after those already read. */
  lemma {:induction false} ValuesRoundTrip(vs: seq<Value>, rest: Tokens, read: seq<Value>)
    ensures DecodeValues(EncodeValues(vs) + rest, |vs|, read) == Ok((read + LowBits(vs), rest))
    decreases |vs|
  {
    if vs == [] {
      assert EncodeValues(vs) + rest == rest;
      assert read + LowBits(vs) == read;
    } else {
      var low := LoadValue(SaveValue(vs[0]));
      var tail := EncodeValues(vs[1..]) + rest;
      EncodeValuesCons(vs);
      assert EncodeValues(vs) + rest == [SaveValue(vs[0])] + tail;
      DecodeValuesAfterValue(vs[0], tail, |vs|, read);
      ValuesRoundTrip(vs[1..], rest, read + [low]);
      assert DecodeValues(tail, |vs| - 1, read + [low]) == Ok(((read + [low]) + LowBits(vs[1..]), rest));
      LowBitsCons(vs);
      assert (read + [low]) + LowBits(vs[1..]) == read + LowBits(vs);
    }
  }
}
