/** The update check and its one-warning latch (cmd/clicktrics/main.go, runUpdateChecker). */
module UpdateChecker {
  import opened Prelude
  import Version

  datatype Release = Release(tag: string, url: string, publishedAt: int)

  /** The one series of the upstream info gauge. */
  datatype Info = Info(tag: string, url: string, value: int)

  class Checker {
    const current: string
    var warned: bool
    /** How many warnings have been logged. */
    var warnings: nat
    var updateAvailable: int
    var checkSuccess: int
    var upstream: Option<Info>

    constructor (current: string)
      ensures this.current == current
      ensures !warned && warnings == 0 && updateAvailable == 0 && checkSuccess == 0 && upstream == None
    {
      this.current := current;
      warned, warnings, updateAvailable, checkSuccess, upstream := false, 0, 0, 0, None;
    }

    /** The check closure; None for a fetch that failed. */
    method Check(fetched: Option<Release>)
      modifies this
      ensures checkSuccess == if fetched.Some? then 1 else 0
      ensures fetched == None ==>
                warned == old(warned) && warnings == old(warnings)
                && updateAvailable == old(updateAvailable) && upstream == old(upstream)
      ensures fetched.Some? ==>
                var outdated := Version.Compare(current, fetched.value.tag) == Version.Outdated;
                && warned == outdated
                && warnings == old(warnings) + (if outdated && !old(warned) then 1 else 0)
                && updateAvailable == (if outdated then 1 else 0)
                && upstream == Some(Info(fetched.value.tag, fetched.value.url,
                                         if fetched.value.publishedAt <= 0 then 1 else fetched.value.publishedAt))
    {
      if fetched == None {
        checkSuccess := 0;
        return;
      }
      var rel := fetched.value;
      checkSuccess := 1;
      var value := rel.publishedAt;
      if value <= 0 {
        value := 1;
      }
      upstream := Some(Info(rel.tag, rel.url, value));
      match Version.Compare(current, rel.tag)
      case Outdated =>
        updateAvailable := 1;
        if !warned {
          warnings := warnings + 1;
          warned := true;
        }
      case _ =>
        updateAvailable := 0;
        warned := false;
    }
  }

  /** Whether each successful check found the running version outdated. */
  function Findings(current: string, stream: seq<Option<Release>>): seq<bool>
  {
    if stream == [] then []
    else
      var last := Last(stream);
      Findings(current, Front(stream))
      + if last.Some? then [Version.Compare(current, last.value.tag) == Version.Outdated] else []
  }

  /** Where a stretch of outdated findings begins. */
  predicate StartsStretch(findings: seq<bool>, i: nat)
  {
    i < |findings| && findings[i] && (i == 0 || !findings[i - 1])
  }

  /** The positions at which maximal outdated stretches begin: one per stretch. */
  function Stretches(findings: seq<bool>): set<nat>
  {
    set i: nat | i < |findings| && StartsStretch(findings, i)
  }

  lemma OneMoreFinding(findings: seq<bool>, outdated: bool)
    ensures var starts := outdated && (findings == [] || !Last(findings));
            |Stretches(findings + [outdated])| == |Stretches(findings)| + if starts then 1 else 0
  {
    var more := findings + [outdated];
    var n := |findings|;
    assert forall i: nat :: i < n ==> (StartsStretch(more, i) <==> StartsStretch(findings, i));
    if outdated && (findings == [] || !Last(findings)) {
      assert Stretches(more) == Stretches(findings) + {n};
    } else {
      assert Stretches(more) == Stretches(findings);
    }
  }

  /**
    Any stream of checks: one warning per maximal stretch of outdated findings among the successful checks, whatever
    failed in between, and the gauge shows the last successful finding.
   */
  method Watch(current: string, stream: seq<Option<Release>>) returns (c: Checker)
    ensures var findings := Findings(current, stream);
            && c.warnings == |Stretches(findings)|
            && c.warned == (findings != [] && Last(findings))
            && c.updateAvailable == if findings != [] && Last(findings) then 1 else 0
  {
    c := new Checker(current);
    assert Stretches([]) == {};
    for i := 0 to |stream|
      invariant fresh(c) && c.current == current
      invariant c.warnings == |Stretches(Findings(current, stream[..i]))|
      invariant var findings := Findings(current, stream[..i]);
                && c.warned == (findings != [] && Last(findings))
                && c.updateAvailable == if findings != [] && Last(findings) then 1 else 0
    {
      ghost var findings := Findings(current, stream[..i]);
      assert Front(stream[..i + 1]) == stream[..i];
      if stream[i].Some? {
        ghost var outdated := Version.Compare(current, stream[i].value.tag) == Version.Outdated;
        OneMoreFinding(findings, outdated);
        assert Findings(current, stream[..i + 1]) == findings + [outdated];
      } else {
        assert Findings(current, stream[..i + 1]) == findings;
      }
      c.Check(stream[i]);
    }
    assert stream[..|stream|] == stream;
  }
}
