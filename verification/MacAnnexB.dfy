/** The macOS host's conversion of a length-prefixed block to Annex B. */
module MacAnnexB {
  import opened Bytes
  import opened AnnexB
  import opened Avcc

  /** Appends the block's units to `out`; `Err` on a truncated unit. Unlike the Windows host it
      keeps empty units (as bare start codes) and drops up to three spare bytes at the end. */
  method AppendAvccAsAnnexB(buf: seq<byte>, out: seq<byte>) returns (r: Result<seq<byte>>)
    ensures r == match Parse(buf)
                 case None => Err
                 case Some((units, tail)) => Ok(out + Print(units))
  {
    var pos := 0;
    var written := out;
    ghost var done: seq<seq<byte>> := [];
    ParsedSoFarInit(buf);
    while pos + 4 <= |buf|
      invariant pos <= |buf|
      invariant written == out + Print(done)
      invariant ParsedSoFar(buf, done, pos)
    {
      var nalLen := FromBigEndian32(buf[pos..pos + 4]);
      ParseStep(buf, done, pos);
      pos := pos + 4;
      if pos + nalLen > |buf| {
        return Err;
      }
      PrintSnoc(done, buf[pos..pos + nalLen]);
      written := written + START_CODE;
      written := written + buf[pos..pos + nalLen];
      done := done + [buf[pos..pos + nalLen]];
      pos := pos + nalLen;
    }
    ParsedSoFarEnd(buf, done, pos);
    return Ok(written);
  }

  /** A captured sample: on a keyframe the parameter sets of its format description (`None`
      when the description cannot be read) are printed first. */
  method SampleToAnnexB(isKeyframe: bool, parameterSets: Option<seq<seq<byte>>>, block: seq<byte>)
    returns (r: Result<seq<byte>>)
    ensures r == SampleBytes(isKeyframe, parameterSets, block)
  {
    var out: seq<byte> := [];
    if isKeyframe {
      match parameterSets
      case None => return Err;
      case Some(sets) =>
        for i := 0 to |sets|
          invariant out == Print(sets[..i])
        {
          assert sets[..i + 1] == sets[..i] + [sets[i]];
          PrintSnoc(sets[..i], sets[i]);
          out := out + START_CODE;
          out := out + sets[i];
        }
        assert sets[..|sets|] == sets;
    }
    r := AppendAvccAsAnnexB(block, out);
  }

  function SampleBytes(isKeyframe: bool, parameterSets: Option<seq<seq<byte>>>, block: seq<byte>): Result<seq<byte>> {
    if isKeyframe && parameterSets == None then Err
    else
      match Parse(block)
      case None => Err
      case Some((units, tail)) => Ok((if isKeyframe then Print(parameterSets.value) else []) + Print(units))
  }
}
