/**
 * The body of the `root` route: fetch each provider in turn, collect the
 * three fields of every usable record into three parallel lists, and take the
 * formatted mode of each list on its own.
 */
module Service {
  import opened Wrappers
  import opened Fetcher
  import opened Consensus

  /** A provider's parsed JSON body, as far as `root` looks at it. */
  datatype Payload =
    | Record(oopMax: int, remainingOopMax: int, copay: int)  // an object with the three fields, in cents
    | NotSubscriptable  // a list, string or number: subscripting it by a field name raises `TypeError`

  /** The three fields `root` reports. */
  datatype Field = OopMax | RemainingOopMax | Copay

  function Get(p: Payload, f: Field): int
    requires p.Record?
  {
    match f
    case OopMax => p.oopMax
    case RemainingOopMax => p.remainingOopMax
    case Copay => p.copay
  }

  /** The JSON object `root` returns; `None` stands for `null`. */
  datatype ConsensusResult = ConsensusResult(oopMax: Option<string>, remainingOopMax: Option<string>, copay: Option<string>)

  /** A response whose three subscripts succeed; `None` and other payloads raise `TypeError` there. */
  predicate Usable(r: Option<Payload>) {
    r.Some? && r.value.Record?
  }

  /** The usable records among the responses, in provider order. */
  function Records(rs: seq<Option<Payload>>): (recs: seq<Payload>)
    ensures |recs| <= |rs|
    ensures forall j :: 0 <= j < |recs| ==> recs[j].Record? && Some(recs[j]) in rs
  {
    if rs == [] then []
    else
      var init := rs[..|rs| - 1];
      var last := rs[|rs| - 1];
      assert forall r :: r in init ==> r in rs;
      Records(init) + (if Usable(last) then [last.value] else [])
  }

  /** The list `root` builds for field `f`: one entry per usable record, in provider order. */
  function Samples(rs: seq<Option<Payload>>, f: Field): (s: seq<int>)
    ensures |s| == |Records(rs)|
  {
    var recs := Records(rs);
    seq(|recs|, j requires 0 <= j < |recs| => Get(recs[j], f))
  }

  /** What `get_member_data` gives for each provider, with the default retry limit. */
  function Responses(networks: seq<nat -> Attempt<Payload>>): (rs: seq<Option<Payload>>)
    ensures |rs| == |networks|
  {
    seq(|networks|, p requires 0 <= p < |networks| => FetchSpec(networks[p], MaxRetries).data)
  }

  /**
   * The consensus step of `root`. A field is `null` exactly when no provider
   * gave a usable record; otherwise it reads back as the first-occurring most
   * frequent value among that field's entries.
   */
  function Reconcile(rs: seq<Option<Payload>>): (r: ConsensusResult)
    ensures r.oopMax.None? <==> Records(rs) == []
    ensures r.remainingOopMax.None? <==> Records(rs) == []
    ensures r.copay.None? <==> Records(rs) == []
    ensures r.oopMax.Some? ==>
      exists m :: IsFirstMode(Samples(rs, OopMax), m) && Currency.ParseCurrency(r.oopMax.value) == Some(m)
    ensures r.remainingOopMax.Some? ==>
      exists m :: IsFirstMode(Samples(rs, RemainingOopMax), m) && Currency.ParseCurrency(r.remainingOopMax.value) == Some(m)
    ensures r.copay.Some? ==>
      exists m :: IsFirstMode(Samples(rs, Copay), m) && Currency.ParseCurrency(r.copay.value) == Some(m)
  {
    ConsensusResult(
      FormattedMode(Samples(rs, OopMax)),
      FormattedMode(Samples(rs, RemainingOopMax)),
      FormattedMode(Samples(rs, Copay)))
  }

  /** `root`: one fetch per provider, in order, appending to the three lists, then the three consensus values. */
  method Root(networks: seq<nat -> Attempt<Payload>>) returns (r: ConsensusResult)
    ensures r == Reconcile(Responses(networks))
  {
    ghost var rs := Responses(networks);
    var oopMaxList: seq<int> := [];
    var remainingOopMaxList: seq<int> := [];
    var copayList: seq<int> := [];
    for p := 0 to |networks|
      invariant oopMaxList == Samples(rs[..p], OopMax)
      invariant remainingOopMaxList == Samples(rs[..p], RemainingOopMax)
      invariant copayList == Samples(rs[..p], Copay)
    {
      var memberData, _, _ := GetMemberData(networks[p], MaxRetries);
      assert rs[..p + 1][..p] == rs[..p];
      match memberData {
        case Some(Record(oopMax, remainingOopMax, copay)) =>
          oopMaxList := oopMaxList + [oopMax];
          remainingOopMaxList := remainingOopMaxList + [remainingOopMax];
          copayList := copayList + [copay];
        case _ =>
      }
    }
    assert rs[..|networks|] == rs;
    r := ConsensusResult(FormattedMode(oopMaxList), FormattedMode(remainingOopMaxList), FormattedMode(copayList));
  }

  lemma {:induction false} RecordsAppend(a: seq<Option<Payload>>, b: seq<Option<Payload>>)
    ensures Records(a + b) == Records(a) + Records(b)
    decreases |b|
  {
    if b == [] {
      assert a + b == a;
    } else {
      var b' := b[..|b| - 1];
      assert (a + b)[..|a + b| - 1] == a + b';
      RecordsAppend(a, b');
    }
  }

  /** A provider that gave nothing usable adds nothing to any list. */
  lemma SamplesSkipUnusable(a: seq<Option<Payload>>, r: Option<Payload>, b: seq<Option<Payload>>, f: Field)
    requires !Usable(r)
    ensures Samples(a + [r] + b, f) == Samples(a + b, f)
  {
    RecordsAppend(a + [r], b);
    RecordsAppend(a, [r]);
    RecordsAppend(a, b);
    assert [r][..0] == [];
  }

  /**
   * A usable record of provider `i` contributes its field `f` to the list, at
   * the position given by the number of usable records before it.
   */
  lemma SamplesPosition(rs: seq<Option<Payload>>, i: nat, f: Field)
    requires i < |rs| && Usable(rs[i])
    ensures |Records(rs[..i])| < |Samples(rs, f)|
    ensures Samples(rs, f)[|Records(rs[..i])|] == Get(rs[i].value, f)
  {
    assert rs == rs[..i] + [rs[i]] + rs[i + 1..];
    RecordsAppend(rs[..i] + [rs[i]], rs[i + 1..]);
    RecordsAppend(rs[..i], [rs[i]]);
    assert [rs[i]][..0] == [];
  }

  /** The three lists always have one entry per usable record, whichever field. */
  lemma SamplesParallel(rs: seq<Option<Payload>>, j: nat)
    requires j < |Records(rs)|
    ensures Records(rs)[j] == Record(Samples(rs, OopMax)[j], Samples(rs, RemainingOopMax)[j], Samples(rs, Copay)[j])
  {
  }

  /** Three agreeing-by-majority providers give the consensus the route test expects. */
  lemma ReconcileExample()
    ensures Reconcile([Some(Record(10000, 9000, 1000)), Some(Record(20000, 9000, 5000)), Some(Record(10000, 8000, 1000))])
      == ConsensusResult(Some("$100.00"), Some("$90.00"), Some("$10.00"))
  {
    var rs := [Some(Record(10000, 9000, 1000)), Some(Record(20000, 9000, 5000)), Some(Record(10000, 8000, 1000))];
    assert rs[..2][..1][..0] == [];
    assert rs[..2][..1] == rs[..1];
    assert Records(rs) == [Record(10000, 9000, 1000), Record(20000, 9000, 5000), Record(10000, 8000, 1000)];
    assert Samples(rs, OopMax) == [10000, 20000, 10000];
    assert Samples(rs, RemainingOopMax) == [9000, 9000, 8000];
    assert Samples(rs, Copay) == [1000, 5000, 1000];
    ModeOfThree(10000, 20000, 10000);
    ModeOfThree(9000, 9000, 8000);
    ModeOfThree(1000, 5000, 1000);
    Currency.FormatHundredDollars();
    Currency.FormatNinetyDollars();
    Currency.FormatTenDollars();
  }

  /** A failed provider does not block the consensus of the other two. */
  lemma ReconcileWithFailedProvider()
    ensures Reconcile([Some(Record(10000, 9000, 1000)), None, Some(Record(10000, 8000, 1000))])
      == ConsensusResult(Some("$100.00"), Some("$90.00"), Some("$10.00"))
  {
    var rs := [Some(Record(10000, 9000, 1000)), None, Some(Record(10000, 8000, 1000))];
    assert rs[..2][..1][..0] == [];
    assert rs[..2][..1] == rs[..1];
    assert Records(rs[..1]) == [Record(10000, 9000, 1000)];
    assert Records(rs[..2]) == [Record(10000, 9000, 1000)];
    assert Records(rs) == [Record(10000, 9000, 1000), Record(10000, 8000, 1000)];
    assert Samples(rs, OopMax) == [10000, 10000];
    assert Samples(rs, RemainingOopMax) == [9000, 8000];
    assert Samples(rs, Copay) == [1000, 1000];
    ModeOfTwo(10000, 10000);
    ModeOfTwo(9000, 8000);
    ModeOfTwo(1000, 1000);
    Currency.FormatHundredDollars();
    Currency.FormatNinetyDollars();
    Currency.FormatTenDollars();
  }

  /** With no usable record every field is `null`. */
  lemma ReconcileNoData(rs: seq<Option<Payload>>)
    requires forall i :: 0 <= i < |rs| ==> !Usable(rs[i])
    ensures Reconcile(rs) == ConsensusResult(None, None, None)
  {
  }

  /** Providers whose endpoints answer at once are passed through to the consensus step unchanged. */
  lemma ResponsesFirstTry(p1: Payload, p2: Payload, p3: Payload)
    ensures Responses([(i: nat) => Ok(p1), (i: nat) => Ok(p2), (i: nat) => Ok(p3)]) == [Some(p1), Some(p2), Some(p3)]
  {
    FetchFirstDecisive((i: nat) => Ok(p1), MaxRetries, 0);
    FetchFirstDecisive((i: nat) => Ok(p2), MaxRetries, 0);
    FetchFirstDecisive((i: nat) => Ok(p3), MaxRetries, 0);
  }
}
