/** What splitting one multi-document YAML file produces. The YAML library is
    not modelled: a file is given as the finite sequence of outcomes that its
    decoder's successive Decode calls produce before io.EOF, each decoded
    document carrying the outcome of re-encoding it with yaml.Marshal. */
module YamlSplit {
  import opened Strings

  type Bytes = seq<bv8>

  datatype DecodeStep =
    | Decoded(encoded: Option<Bytes>)  // Decode succeeded; None when yaml.Marshal then failed
    | DecodeFailed                     // Decode returned an error other than io.EOF
    | Panicked                         // the decoder (or encoder) panicked

  /** The re-encoded documents of the successful steps, in input order. */
  function Kept(steps: seq<DecodeStep>): seq<Bytes>
  {
    if steps == [] then []
    else
      var last := steps[|steps| - 1];
      Kept(steps[..|steps| - 1]) + (if last.Decoded? && last.encoded.Some? then [last.encoded.value] else [])
  }

  predicate HasPanic(steps: seq<DecodeStep>)
  {
    exists i :: 0 <= i < |steps| && steps[i].Panicked?
  }

  /** What splitYAML returns: the kept documents, or nothing at all once a
      panic has been recovered from. */
  function SplitResult(steps: seq<DecodeStep>): seq<Bytes>
  {
    if HasPanic(steps) then [] else Kept(steps)
  }

  /** Documents on either side of any stretch of input survive, in order:
      a failing document stops nothing. */
  lemma {:induction false} KeptAppend(a: seq<DecodeStep>, b: seq<DecodeStep>)
    ensures Kept(a + b) == Kept(a) + Kept(b)
    decreases |b|
  {
    if b != [] {
      assert (a + b)[..|a + b| - 1] == a + b[..|b| - 1];
      KeptAppend(a, b[..|b| - 1]);
    } else {
      assert a + b == a;
    }
  }

  /** A step that is not a successfully re-encoded document contributes nothing. */
  lemma SkipFailure(a: seq<DecodeStep>, bad: DecodeStep, b: seq<DecodeStep>)
    requires !(bad.Decoded? && bad.encoded.Some?)
    ensures Kept(a + [bad] + b) == Kept(a) + Kept(b)
  {
    KeptAppend(a + [bad], b);
    KeptAppend(a, [bad]);
    assert Kept([bad]) == [] by {
      assert [bad][..0] == [];
    }
  }

  /** The kept documents are exactly the successfully re-encoded ones. */
  lemma {:induction false} KeptMembers(steps: seq<DecodeStep>, d: Bytes)
    ensures d in Kept(steps) <==> exists i :: 0 <= i < |steps| && steps[i] == Decoded(Some(d))
  {
    if steps != [] {
      var init := steps[..|steps| - 1];
      KeptMembers(init, d);
      if exists i :: 0 <= i < |init| && init[i] == Decoded(Some(d)) {
        var i :| 0 <= i < |init| && init[i] == Decoded(Some(d));
        assert steps[i] == init[i];
      }
      if exists i :: 0 <= i < |steps| && steps[i] == Decoded(Some(d)) {
        var i :| 0 <= i < |steps| && steps[i] == Decoded(Some(d));
        if i < |init| {
          assert init[i] == steps[i];
        }
      }
    }
  }

  /** Two successfully re-encoded documents keep their relative order. */
  lemma KeptOrder(steps: seq<DecodeStep>, i: nat, j: nat)
    requires i < j < |steps|
    requires steps[i].Decoded? && steps[i].encoded.Some?
    requires steps[j].Decoded? && steps[j].encoded.Some?
    ensures exists p, q ::
              0 <= p < q < |Kept(steps)| &&
              Kept(steps)[p] == steps[i].encoded.value && Kept(steps)[q] == steps[j].encoded.value
  {
    var a, b, c := steps[..i], steps[i + 1..j], steps[j + 1..];
    assert steps == a + [steps[i]] + b + [steps[j]] + c;
    KeptAppend(a + [steps[i]] + b + [steps[j]], c);
    KeptAppend(a + [steps[i]] + b, [steps[j]]);
    KeptAppend(a + [steps[i]], b);
    KeptAppend(a, [steps[i]]);
    assert [steps[i]][..0] == [] && [steps[j]][..0] == [];
    var p := |Kept(a)|;
    var q := |Kept(a)| + 1 + |Kept(b)|;
    assert Kept(steps)[p] == steps[i].encoded.value;
    assert Kept(steps)[q] == steps[j].encoded.value;
  }
}
