/** Time blocks of a value-change dump, built from its records
    (tools/power_trace_from_vcd.py:230-291). */
module VcdBlocks {
  import opened Outcomes
  import opened VcdValues

  /** A line of the dump body. Malformed is any line the parser rejects. */
  datatype Record =
    | Stamp(time: int)
    | Vector(id: string, digits: string)
    | Scalar(id: string, symbol: char)
    | Real(id: string, text: string)
    | Text(id: string, text: string)
    | Malformed

  datatype Block = Block(time: int, changes: map<string, string>)

  /** What a change record stores under its identifier; vectors of undeclared
      identifiers are skipped. */
  function Stored(widths: map<string, int>, r: Record): map<string, string> {
    match r
    case Stamp(_) => map[]
    case Malformed => map[]
    case Vector(id, digits) => if id in widths then map[id := NormaliseVector(digits, widths[id])] else map[]
    case Scalar(id, symbol) => map[id := NormaliseVector([symbol], if id in widths then widths[id] else 1)]
    case Real(id, text) => map[id := Lower(text)]
    case Text(id, text) => map[id := text]
  }

  predicate WellFormed(records: seq<Record>) {
    forall k :: 0 <= k < |records| ==> !records[k].Malformed?
  }

  /** No stamp goes back in time. */
  predicate StampsMonotone(records: seq<Record>, from: int) {
    if records == [] then true
    else if records[0].Stamp? then records[0].time >= from && StampsMonotone(records[1..], records[0].time)
    else StampsMonotone(records[1..], from)
  }

  ghost predicate IncreasingTimes(blocks: seq<Block>) {
    forall i, j :: 0 <= i < j < |blocks| ==> blocks[i].time < blocks[j].time
  }

  /** The values in force after the first n blocks. */
  function ValuesAfter(blocks: seq<Block>, n: nat): map<string, string>
    requires n <= |blocks|
  {
    if n == 0 then map[] else ValuesAfter(blocks, n - 1) + blocks[n - 1].changes
  }

  /** The values after the first n records, whatever their times. */
  function Replayed(widths: map<string, int>, records: seq<Record>, n: nat): map<string, string>
    requires n <= |records|
  {
    if n == 0 then map[] else Replayed(widths, records, n - 1) + Stored(widths, records[n - 1])
  }

  lemma {:induction false} MonotoneSplit(records: seq<Record>, from: int, n: nat)
    requires n < |records|
    requires StampsMonotone(records, from)
    ensures records[n].Stamp? ==> records[n].time >= LastStamp(records, from, n)
    decreases n
  {
    if n > 0 {
      var next := if records[0].Stamp? then records[0].time else from;
      MonotoneSplit(records[1..], next, n - 1);
      LastStampTail(records, from, n);
    }
  }

  /** The latest stamp among the first n records. */
  function LastStamp(records: seq<Record>, from: int, n: nat): int
    requires n <= |records|
  {
    if n == 0 then from else if records[n - 1].Stamp? then records[n - 1].time else LastStamp(records, from, n - 1)
  }

  lemma {:induction false} LastStampTail(records: seq<Record>, from: int, n: nat)
    requires 0 < n <= |records|
    ensures LastStamp(records, from, n)
            == LastStamp(records[1..], if records[0].Stamp? then records[0].time else from, n - 1)
    decreases n
  {
    if n > 1 {
      LastStampTail(records, from, n - 1);
    }
  }

  lemma {:induction false} MonotonePrefix(records: seq<Record>, from: int)
    requires forall n :: 0 <= n < |records| && records[n].Stamp? ==> records[n].time >= LastStamp(records, from, n)
    ensures StampsMonotone(records, from)
    decreases |records|
  {
    if records != [] {
      var next := if records[0].Stamp? then records[0].time else from;
      forall n | 0 <= n < |records[1..]| && records[1..][n].Stamp?
        ensures records[1..][n].time >= LastStamp(records[1..], next, n)
      {
        LastStampTail(records, from, n + 1);
        assert records[n + 1].time >= LastStamp(records, from, n + 1);
      }
      MonotonePrefix(records[1..], next);
    }
  }

  /** A change recorded in the last block. */
  function WithChange(blocks: seq<Block>, extra: map<string, string>): seq<Block>
    requires blocks != []
  {
    var last := |blocks| - 1;
    blocks[last := Block(blocks[last].time, blocks[last].changes + extra)]
  }

  lemma ChangeReplays(blocks: seq<Block>, extra: map<string, string>)
    requires blocks != []
    ensures |WithChange(blocks, extra)| == |blocks|
    ensures ValuesAfter(WithChange(blocks, extra), |blocks|) == ValuesAfter(blocks, |blocks|) + extra
  {
    SamePrefix(blocks, WithChange(blocks, extra), |blocks| - 1);
  }

  lemma ChangeKeepsTimes(blocks: seq<Block>, extra: map<string, string>)
    requires blocks != [] && IncreasingTimes(blocks)
    ensures IncreasingTimes(WithChange(blocks, extra))
    ensures WithChange(blocks, extra)[0].time == blocks[0].time
    ensures WithChange(blocks, extra)[|blocks| - 1].time == blocks[|blocks| - 1].time
  {
  }

  lemma StampReplays(blocks: seq<Block>, time: int)
    ensures ValuesAfter(blocks + [Block(time, map[])], |blocks| + 1) == ValuesAfter(blocks, |blocks|)
  {
    var more := blocks + [Block(time, map[])];
    SamePrefix(blocks, more, |blocks|);
    assert ValuesAfter(blocks, |blocks|) + map[] == ValuesAfter(blocks, |blocks|);
  }

  lemma RecordReplayed(widths: map<string, int>, records: seq<Record>, n: nat)
    requires n < |records|
    ensures records[n].Stamp? ==> Replayed(widths, records, n + 1) == Replayed(widths, records, n)
    ensures Replayed(widths, records, n + 1) == Replayed(widths, records, n) + Stored(widths, records[n])
  {
  }

  // ----- what is in force is what was written last

  /** The records that set a value: every scalar, real and text change, and the vector
      changes of declared identifiers. */
  ghost predicate Writes(widths: map<string, int>, r: Record, id: string) {
    || (r.Vector? && r.id == id && id in widths)
    || (r.Scalar? && r.id == id) || (r.Real? && r.id == id) || (r.Text? && r.id == id)
  }

  /** What such a record sets it to: a vector fitted to its declared width, a scalar to
      its declared width or one digit, the text of a real in small letters, other text
      as it stands. */
  ghost predicate Sets(widths: map<string, int>, r: Record, id: string, value: string) {
    && (r.Vector? ==> id in widths && value == NormaliseVector(r.digits, widths[id]))
    && (r.Scalar? && id in widths ==> value == NormaliseVector([r.symbol], widths[id]))
    && (r.Scalar? && id !in widths ==> value == [LowerChar(r.symbol)])
    && (r.Real? ==> |value| == |r.text| && forall i :: 0 <= i < |value| ==> value[i] == LowerChar(r.text[i]))
    && (r.Text? ==> value == r.text)
  }

  lemma StoredIsSet(widths: map<string, int>, r: Record, id: string)
    ensures id in Stored(widths, r) <==> Writes(widths, r, id)
    ensures Writes(widths, r, id) ==> Sets(widths, r, id, Stored(widths, r)[id])
  {
    if r.Scalar? {
      OneDigit(r.symbol);
    }
    hide NormaliseVector;
  }

  lemma OneDigit(c: char)
    ensures NormaliseVector([c], 1) == [LowerChar(c)]
  {
  }

  /** Record m is the last of the first n that sets id. */
  ghost predicate LastWriter(widths: map<string, int>, records: seq<Record>, n: nat, id: string, m: nat)
    requires n <= |records|
  {
    && m < n && Writes(widths, records[m], id)
    && forall k :: m < k < n ==> !Writes(widths, records[k], id)
  }

  /** An identifier has a value once some record has set it, and then the value the last
      such record set. */
  lemma {:induction false} LastWriterWins(widths: map<string, int>, records: seq<Record>, n: nat, id: string)
    requires n <= |records|
    ensures id in Replayed(widths, records, n) <==> exists m: nat :: LastWriter(widths, records, n, id, m)
    ensures forall m: nat :: LastWriter(widths, records, n, id, m) ==>
              Sets(widths, records[m], id, Replayed(widths, records, n)[id])
    decreases n
  {
    hide Stored, Writes, Sets;
    if n > 0 {
      LastWriterWins(widths, records, n - 1, id);
      StoredIsSet(widths, records[n - 1], id);
      if Writes(widths, records[n - 1], id) {
        assert LastWriter(widths, records, n, id, n - 1);
      } else {
        var before := n - 1;
        if id in Replayed(widths, records, before) {
          var m: nat :| LastWriter(widths, records, before, id, m);
          SameWriter(widths, records, before, id, m);
        }
        forall m: nat | LastWriter(widths, records, n, id, m)
          ensures LastWriter(widths, records, before, id, m)
        {
          SameWriter(widths, records, before, id, m);
        }
      }
    }
  }

  lemma SameWriter(widths: map<string, int>, records: seq<Record>, n: nat, id: string, m: nat)
    requires n < |records| && !Writes(widths, records[n], id)
    ensures LastWriter(widths, records, n, id, m) <==> LastWriter(widths, records, n + 1, id, m)
  {
    hide Writes;
  }

  // ----- which record starts which block

  /** Record n is a stamp later than all before it. */
  predicate Opens(records: seq<Record>, n: nat)
    requires n < |records|
  {
    records[n].Stamp? && records[n].time > LastStamp(records, 0, n)
  }

  /** Record n starts block k: same time, and the blocks before k hold exactly the
      records before n. */
  ghost predicate StartsBlock(widths: map<string, int>, records: seq<Record>, blocks: seq<Block>, n: nat, k: nat)
    requires n < |records| && k < |blocks|
  {
    && k > 0 && Opens(records, n) && blocks[k].time == records[n].time
    && ValuesAfter(blocks, k) == Replayed(widths, records, n)
  }

  /** One of the first n records starts block k. */
  ghost predicate Started(widths: map<string, int>, records: seq<Record>, blocks: seq<Block>, n: nat, k: nat)
    requires n <= |records| && k < |blocks|
  {
    exists m :: 0 <= m < n && StartsBlock(widths, records, blocks, m, k)
  }

  /** Record m starts a block. */
  ghost predicate Starts(widths: map<string, int>, records: seq<Record>, blocks: seq<Block>, m: nat)
    requires m < |records|
  {
    exists k :: 0 < k < |blocks| && StartsBlock(widths, records, blocks, m, k)
  }

  /** Every block but the first is started by one of the first n records, and every
      one of them that opens a new time starts a block. */
  ghost predicate BlocksFollow(widths: map<string, int>, records: seq<Record>, blocks: seq<Block>, n: nat)
    requires n <= |records|
  {
    && (forall k :: 0 < k < |blocks| ==> Started(widths, records, blocks, n, k))
    && (forall m :: 0 <= m < n && Opens(records, m) ==> Starts(widths, records, blocks, m))
  }

  /** Starts survive when the blocks before them and their times do. */
  lemma StartsKept(widths: map<string, int>, records: seq<Record>, a: seq<Block>, b: seq<Block>, m: nat, k: nat)
    requires m < |records| && k < |a| && k < |b|
    requires a[..k] == b[..k] && a[k].time == b[k].time && StartsBlock(widths, records, a, m, k)
    ensures StartsBlock(widths, records, b, m, k)
  {
    hide Opens, Replayed;
    SamePrefix(a, b, k);
  }

  lemma FollowsChange(widths: map<string, int>, records: seq<Record>, blocks: seq<Block>,
                      extra: map<string, string>, n: nat)
    requires n < |records| && blocks != [] && !records[n].Stamp? && BlocksFollow(widths, records, blocks, n)
    ensures BlocksFollow(widths, records, WithChange(blocks, extra), n + 1)
  {
    hide StartsBlock;
    var b, after := WithChange(blocks, extra), n + 1;
    forall k | 0 < k < |b|
      ensures Started(widths, records, b, after, k)
    {
      assert Started(widths, records, blocks, n, k);
      var m :| 0 <= m < n && StartsBlock(widths, records, blocks, m, k);
      StartsKept(widths, records, blocks, b, m, k);
    }
    forall m | 0 <= m < n + 1 && Opens(records, m)
      ensures Starts(widths, records, b, m)
    {
      assert Starts(widths, records, blocks, m);
      var k :| 0 < k < |blocks| && StartsBlock(widths, records, blocks, m, k);
      StartsKept(widths, records, blocks, b, m, k);
    }
  }

  lemma FollowsStamp(widths: map<string, int>, records: seq<Record>, blocks: seq<Block>, n: nat)
    requires n < |records| && blocks != [] && Opens(records, n) && BlocksFollow(widths, records, blocks, n)
    requires ValuesAfter(blocks, |blocks|) == Replayed(widths, records, n)
    ensures BlocksFollow(widths, records, blocks + [Block(records[n].time, map[])], n + 1)
  {
    assert records[n].Stamp?;
    hide Opens, Replayed, ValuesAfter;
    var b := blocks + [Block(records[n].time, map[])];
    SamePrefix(blocks, b, |blocks|);
    assert StartsBlock(widths, records, b, n, |blocks|);
    hide StartsBlock;
    var after := n + 1;
    forall k | 0 < k < |b|
      ensures Started(widths, records, b, after, k)
    {
      if k < |blocks| {
        assert Started(widths, records, blocks, n, k);
        var m :| 0 <= m < n && StartsBlock(widths, records, blocks, m, k);
        StartsKept(widths, records, blocks, b, m, k);
      }
    }
    forall m | 0 <= m < n + 1 && Opens(records, m)
      ensures Starts(widths, records, b, m)
    {
      if m < n {
        assert Starts(widths, records, blocks, m);
        var k :| 0 < k < |blocks| && StartsBlock(widths, records, blocks, m, k);
        StartsKept(widths, records, blocks, b, m, k);
      }
    }
  }

  lemma FollowsRepeat(widths: map<string, int>, records: seq<Record>, blocks: seq<Block>, n: nat)
    requires n < |records| && !Opens(records, n) && BlocksFollow(widths, records, blocks, n)
    ensures BlocksFollow(widths, records, blocks, n + 1)
  {
    hide Opens, StartsBlock;
    var after := n + 1;
    forall k | 0 < k < |blocks|
      ensures Started(widths, records, blocks, after, k)
    {
      assert Started(widths, records, blocks, n, k);
      var m :| 0 <= m < n && StartsBlock(widths, records, blocks, m, k);
    }
  }

  lemma NoBlockStarted(widths: map<string, int>, records: seq<Record>, blocks: seq<Block>)
    requires |blocks| == 1
    ensures BlocksFollow(widths, records, blocks, 0)
  {
  }

  /** The block-building loop of parse_vcd (tools/power_trace_from_vcd.py:235-291): it
      raises exactly when a line is malformed or a stamp goes back, block times strictly increase from 0,
      every change lands in the block of its time, and the blocks replay the records. */
  method BuildBlocks(records: seq<Record>, widths: map<string, int>) returns (r: Result<seq<Block>>)
    ensures r.Ok? <==> WellFormed(records) && StampsMonotone(records, 0)
    ensures r.Ok? ==> |r.value| > 0 && r.value[0].time == 0 && IncreasingTimes(r.value)
    ensures r.Ok? ==> ValuesAfter(r.value, |r.value|) == Replayed(widths, records, |records|)
    ensures r.Ok? ==> BlocksFollow(widths, records, r.value, |records|)
  {
    hide Stored, Replayed, ValuesAfter, WithChange, StampsMonotone, BlocksFollow;
    var blocks := [Block(0, map[])];
    NothingReplayed(widths, records, blocks);
    NoBlockStarted(widths, records, blocks);
    for n := 0 to |records|
      invariant |blocks| > 0 && blocks[0].time == 0 && IncreasingTimes(blocks)
      invariant blocks[|blocks| - 1].time == LastStamp(records, 0, n)
      invariant ValuesAfter(blocks, |blocks|) == Replayed(widths, records, n)
      invariant BlocksFollow(widths, records, blocks, n)
      invariant forall k :: 0 <= k < n ==> !records[k].Malformed?
      invariant forall k :: 0 <= k < n && records[k].Stamp? ==> records[k].time >= LastStamp(records, 0, k)
    {
      if records[n].Malformed? {
        return Raised;
      }
      RecordReplayed(widths, records, n);
      var last := |blocks| - 1;
      if records[n].Stamp? {
        var stamp := records[n].time;
        if stamp < blocks[last].time {
          if StampsMonotone(records, 0) {
            MonotoneSplit(records, 0, n);
          }
          return Raised;
        }
        if stamp != blocks[last].time {
          StampReplays(blocks, stamp);
          FollowsStamp(widths, records, blocks, n);
          blocks := blocks + [Block(stamp, map[])];
        } else {
          FollowsRepeat(widths, records, blocks, n);
        }
      } else {
        ChangeReplays(blocks, Stored(widths, records[n]));
        ChangeKeepsTimes(blocks, Stored(widths, records[n]));
        FollowsChange(widths, records, blocks, Stored(widths, records[n]), n);
        blocks := WithChange(blocks, Stored(widths, records[n]));
      }
    }
    MonotonePrefix(records, 0);
    return Ok(blocks);
  }

  lemma NothingReplayed(widths: map<string, int>, records: seq<Record>, blocks: seq<Block>)
    requires blocks == [Block(0, map[])]
    ensures ValuesAfter(blocks, 1) == Replayed(widths, records, 0)
  {
    assert ValuesAfter(blocks, 0) == map[];
  }

  lemma {:induction false} SamePrefix(a: seq<Block>, b: seq<Block>, n: nat)
    requires n <= |a| && n <= |b| && a[..n] == b[..n]
    ensures ValuesAfter(a, n) == ValuesAfter(b, n)
    decreases n
  {
    if n > 0 {
      assert a[n - 1] == a[..n][n - 1] == b[..n][n - 1] == b[n - 1];
      assert a[..n - 1] == a[..n][..n - 1] == b[..n][..n - 1] == b[..n - 1];
      SamePrefix(a, b, n - 1);
    }
  }

  lemma NoValuesYet(blocks: seq<Block>)
    ensures ValuesAfter(blocks, 0) == map[]
  {
  }

  lemma NextValues(blocks: seq<Block>, n: nat)
    requires n < |blocks|
    ensures ValuesAfter(blocks, n + 1) == ValuesAfter(blocks, n) + blocks[n].changes
  {
  }
}
