/** Reading the entropy-coded data of a scan, block after block, from any input. */
module JpegScan {
  import opened Bits
  import Canonical
  import opened ByteSource
  import opened JpegBits
  import opened JpegFormat
  import opened JpegHuffman
  import opened JpegBlock
  import opened JpegRead
  import opened JpegDecode

  /** The two codes of a component. */
  datatype Tables = Tables(dc: HuffTable, ac: HuffTable) {
    predicate Sized() {
      |dc.values| == 256 && dc.Total() <= 256 && |ac.values| == 256 && ac.Total() <= 256
    }
  }

  ghost predicate ScanOk(ts: seq<Tables>, steps: seq<seq<nat>>, comps: seq<nat>, preds: seq<int>) {
    && |preds| == |steps| == |ts| && (forall c :: 0 <= c < |ts| ==> ts[c].Sized() && |steps[c]| == 64)
    && forall i :: 0 <= i < |comps| ==> comps[i] < |ts|
  }

  /** What decoding a block of component c from stream v can lead to, with `left` bits before the marker. */
  ghost predicate NextDone(ts: seq<Tables>, steps: seq<seq<nat>>, c: nat, pred: int, v: nat, left: int,
                           ok: bool, dc: int, data: seq<int>, v': nat, left': int)
    requires c < |ts| == |steps| && ts[c].Sized() && |steps[c]| == 64
  {
    BlockMay(ts[c].dc, ts[c].ac, pred, steps[c], v, left, ok, dc, data, v', left')
  }

  /** The blocks of the components comps are decoded one after the other, up to the first that fails. */
  ghost predicate ScanDone(ts: seq<Tables>, steps: seq<seq<nat>>, comps: seq<nat>, preds: seq<int>, v: nat, left: int,
                           ok: bool, datas: seq<seq<int>>)
    requires ScanOk(ts, steps, comps, preds)
    decreases |comps|
  {
    if comps == [] then ok && datas == []
    else if datas == [] then
      !ok && exists dc, data, v', left' ::
        NextDone(ts, steps, comps[0], preds[comps[0]], v, left, false, dc, data, v', left')
    else
      exists dc, v', left' ::
        && NextDone(ts, steps, comps[0], preds[comps[0]], v, left, true, dc, datas[0], v', left')
        && ScanDone(ts, steps, comps[1..], preds[comps[0] := dc], v', left', ok, datas[1..])
  }

  /** From where the reader is after i blocks, the rest of the scan completes the whole. */
  ghost predicate Arrived(ts: seq<Tables>, steps: seq<seq<nat>>, comps: seq<nat>, preds0: seq<int>, v0: nat, left0: int,
                          i: nat, datas: seq<seq<int>>, preds: seq<int>, v: nat, left: int) {
    && i <= |comps| && ScanOk(ts, steps, comps, preds0) && ScanOk(ts, steps, comps[i..], preds)
    && forall ok: bool, rest: seq<seq<int>> ::
         ScanDone(ts, steps, comps[i..], preds, v, left, ok, rest)
         ==> ScanDone(ts, steps, comps, preds0, v0, left0, ok, datas + rest)
  }

  lemma Departs(ts: seq<Tables>, steps: seq<seq<nat>>, comps: seq<nat>, preds: seq<int>, v: nat, left: int)
    requires ScanOk(ts, steps, comps, preds)
    ensures Arrived(ts, steps, comps, preds, v, left, 0, [], preds, v, left)
  {
    hide ScanDone;
    assert comps[0..] == comps;
    forall ok: bool, rest: seq<seq<int>> | ScanDone(ts, steps, comps, preds, v, left, ok, rest)
      ensures ScanDone(ts, steps, comps, preds, v, left, ok, [] + rest)
    {
      assert [] + rest == rest;
    }
  }

  lemma Proceeds(ts: seq<Tables>, steps: seq<seq<nat>>, comps: seq<nat>, preds0: seq<int>, v0: nat, left0: int,
                 i: nat, datas: seq<seq<int>>, preds: seq<int>, v: nat, left: int,
                 dc: int, data: seq<int>, v': nat, left': int)
    requires Arrived(ts, steps, comps, preds0, v0, left0, i, datas, preds, v, left) && i < |comps|
    requires NextDone(ts, steps, comps[i], preds[comps[i]], v, left, true, dc, data, v', left')
    ensures Arrived(ts, steps, comps, preds0, v0, left0, i + 1, datas + [data], preds[comps[i] := dc], v', left')
  {
    hide NextDone;
    var ahead := comps[i..];
    assert ahead[0] == comps[i] && ahead[1..] == comps[i + 1..];
    forall ok: bool, rest: seq<seq<int>>
      | ScanDone(ts, steps, ahead[1..], preds[comps[i] := dc], v', left', ok, rest)
      ensures ScanDone(ts, steps, comps, preds0, v0, left0, ok, (datas + [data]) + rest)
    {
      var more := [data] + rest;
      assert more[0] == data && more[1..] == rest;
      assert ScanDone(ts, steps, ahead, preds, v, left, ok, more);
      assert datas + more == (datas + [data]) + rest;
    }
  }

  lemma Stops(ts: seq<Tables>, steps: seq<seq<nat>>, comps: seq<nat>, preds0: seq<int>, v0: nat, left0: int,
              i: nat, datas: seq<seq<int>>, preds: seq<int>, v: nat, left: int,
              dc: int, data: seq<int>, v': nat, left': int)
    requires Arrived(ts, steps, comps, preds0, v0, left0, i, datas, preds, v, left) && i < |comps|
    requires NextDone(ts, steps, comps[i], preds[comps[i]], v, left, false, dc, data, v', left')
    ensures ScanDone(ts, steps, comps, preds0, v0, left0, false, datas)
  {
    hide NextDone;
    assert comps[i..][0] == comps[i];
    assert ScanDone(ts, steps, comps[i..], preds, v, left, false, []);
    assert datas + [] == datas;
  }

  lemma Ends(ts: seq<Tables>, steps: seq<seq<nat>>, comps: seq<nat>, preds0: seq<int>, v0: nat, left0: int,
             datas: seq<seq<int>>, preds: seq<int>, v: nat, left: int)
    requires Arrived(ts, steps, comps, preds0, v0, left0, |comps|, datas, preds, v, left)
    ensures ScanDone(ts, steps, comps, preds0, v0, left0, true, datas)
  {
    assert ScanDone(ts, steps, comps[|comps|..], preds, v, left, true, []);
    assert datas + [] == datas;
  }

  /** Reads the blocks of the components comps. */
  method ReadScan(input: seq<byte>, comps: seq<nat>, hdcs: seq<Huffman>, hacs: seq<Huffman>, facs: seq<array<int>>,
                  steps: seq<seq<nat>>, ghost ts: seq<Tables>)
    returns (ok: bool, datas: seq<seq<int>>)
    requires |hdcs| == |hacs| == |facs| == |steps| == |ts| && forall i :: 0 <= i < |comps| ==> comps[i] < |ts|
    requires forall i :: 0 <= i < |ts| ==>
      && hdcs[i].Represents(ts[i].dc) && hacs[i].Represents(ts[i].ac)
      && FastAcTable(ts[i].ac, facs[i][..]) && |steps[i]| == 64
    ensures ScanOk(ts, steps, comps, Zeros(|ts|))
    ensures var bytes := Destuffed(input, 0);
      ScanDone(ts, steps, comps, Zeros(|ts|), BitsOf(bytes), 8 * |bytes|, ok, datas)
  {
    hide Destuffed, BitsOf, BlockMay, ScanDone, Arrived, Jpeg.Stream, Jpeg.Real, Jpeg.Valid;
    hide FastAcTable, FastTable, SizeTable, CodeTable, BoundTable, Canonical.Fits;
    var s := new Context(input);
    var j := new Jpeg(s);
    var data := new int[64](_ => 0);
    datas := [];
    var preds := Zeros(|hdcs|);
    ghost var preds0, v0, left0 := preds, j.Stream(), j.Real();
    Departs(ts, steps, comps, preds, v0, left0);
    for i := 0 to |comps|
      invariant fresh(j) && fresh(j.s) && fresh(data) && j.Valid() && |preds| == |ts|
      invariant Arrived(ts, steps, comps, preds0, v0, left0, i, datas, preds, j.Stream(), j.Real())
    {
      var c := comps[i];
      ghost var v, left := j.Stream(), j.Real();
      var dc;
      ok, dc := DecodeBlock(j, data, hdcs[c], hacs[c], facs[c], preds[c], steps[c], ts[c].dc, ts[c].ac);
      if !ok {
        Stops(ts, steps, comps, preds0, v0, left0, i, datas, preds, v, left, dc, data[..], j.Stream(), j.Real());
        return;
      }
      Proceeds(ts, steps, comps, preds0, v0, left0, i, datas, preds, v, left, dc, data[..], j.Stream(), j.Real());
      preds := preds[c := dc];
      datas := datas + [data[..]];
    }
    Ends(ts, steps, comps, preds0, v0, left0, datas, preds, j.Stream(), j.Real());
    ok := true;
  }
}
