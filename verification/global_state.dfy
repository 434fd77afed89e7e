/**
 * The global-state part of the archive: `save_global` writes the number of
 * globals and each global's low 64 bits; `load_global` reads them back into
 * the live global table by position.
 */
module GlobalState {
  import opened Wrappers
  import opened Scalars
  import opened Archive

  /** The tokens `save_global` writes. */
  function EncodeGlobals(globals: seq<Value>): (t: Tokens)
    ensures |t| == 1 + Truncate32(|globals|) && t[0] == Truncate32(|globals|)
  {
    var n := Truncate32(|globals|);
    [n] + EncodeValues(globals[..n])
  }

  /**
   * The reads `load_global` performs for a module with `live` globals. A
   * recorded count above `live` would write past the global table.
   */
  function DecodeGlobals(toks: Tokens, live: nat): (r: Result<(seq<Value>, Tokens), LoadError>)
    ensures r.Ok? ==> |r.value.0| <= live
  {
    match ReadField(toks, U32_BOUND)
    case Err(e) => Err(e)
    case Ok((n, rest)) =>
      if n > live then Err(GlobalCountMismatch(n, live))
      else DecodeValues(rest, n, [])
  }

  /**
   * Globals read back into a module with at least as many globals come out as
   * their low 64 bits, in declaration order.
   */
  lemma GlobalsRoundTrip(globals: seq<Value>, live: nat, rest: Tokens)
    requires |globals| < U32_BOUND && |globals| <= live
    ensures DecodeGlobals(EncodeGlobals(globals) + rest, live) == Ok((LowBits(globals), rest))
  {
    assert globals[..|globals|] == globals;
    ReadFieldCons(|globals|, EncodeValues(globals) + rest, U32_BOUND);
    assert EncodeGlobals(globals) + rest == [|globals|] + (EncodeValues(globals) + rest);
    ValuesRoundTrip(globals, rest, []);
    assert [] + LowBits(globals) == LowBits(globals);
  }

  /** A recorded count above the live table's size is refused. */
  lemma GlobalsMismatch(globals: seq<Value>, live: nat, rest: Tokens)
    requires live < |globals| < U32_BOUND
    ensures DecodeGlobals(EncodeGlobals(globals) + rest, live) == Err(GlobalCountMismatch(|globals|, live))
  {
    assert (EncodeGlobals(globals) + rest)[0] == |globals|;
  }
}
