/** The baseline file of scripts/check_duplicate_code_ratchet.py under one run of `main` on a loaded report. */
module DuplicateRatchetFile {
  import opened Wrappers
  import opened Json
  import opened Sorting
  import opened DuplicateReport
  import opened DuplicateRatchet
  import opened DuplicateRatchetLaws

  /** What a report asks for: nothing beyond the limits, and no fingerprint that is not allowed. */
  predicate Within(report: Report, policy: Policy) {
    && |report.findings| <= policy.clones
    && report.duplicatedLines <= policy.lines
    && Value(report.percentage) <= policy.percentage
    && Fingerprints(report.findings) <= policy.allowed
  }

  /** The policy that allows a report and nothing more. */
  function Exactly(report: Report): Policy {
    Policy(|report.findings|, report.duplicatedLines, Value(report.percentage), Fingerprints(report.findings))
  }

  lemma NothingLeft<T>(a: set<T>, b: set<T>)
    ensures a - b == {} <==> a <= b
  {
    if a - b == {} {
      forall x | x in a ensures x in b {
        assert x !in a - b;
      }
    }
  }

  class BaselineFile {
    var text: string

    constructor (initial: string)
      ensures text == initial
    {
      text := initial;
    }

    /** Only a successful initialization or update touches the file. */
    method Execute(mode: Mode, report: Report, status: int) returns (exit: int)
      requires Loaded(report)
      modifies this
      ensures exit == 0 || text == old(text)
      ensures mode == Check ==> text == old(text)
      ensures mode == Initialize ==> exit == if status == 0 then 0 else 2
      ensures mode != Initialize ==> (exit == 2 <== PolicyOf(old(text)).None?)
      ensures mode == Check && PolicyOf(old(text)).Some? ==>
        var policy := PolicyOf(old(text)).value;
        exit ==
          if status == 0 && Within(report, policy) && policy.allowed <= Fingerprints(report.findings) then 0 else 1
      ensures mode == Update && PolicyOf(old(text)).Some? ==>
        exit == if status == 0 && Within(report, PolicyOf(old(text)).value) then 0 else 2
      ensures mode == Update && exit == 0 ==>
        && PolicyOf(old(text)).Some? && PolicyOf(text).Some?
        && Tightens(PolicyOf(text).value, PolicyOf(old(text)).value)
      ensures mode != Check && exit == 0 ==> PolicyOf(text) == Some(Exactly(report))
      ensures (text, exit) == Run(old(text), mode, report, status)
    {
      hide ReadPolicy, JsonText.ReadDocument, BaselineText, SortedSet, Loaded, Value;
      WrittenPolicy(report);
      if mode == Initialize {
        if status != 0 {
          return 2;
        }
        text := BaselineText(report);
        return 0;
      }
      var document := JsonText.ReadDocument(text);
      if document.None? || ReadPolicy(document.value).None? {
        return 2;
      }
      var policy := ReadPolicy(document.value).value;
      var result := Evaluate(report, policy, status);
      EmptySorted(Fingerprints(report.findings) - policy.allowed);
      EmptySorted(policy.allowed - Fingerprints(report.findings));
      NothingLeft(Fingerprints(report.findings), policy.allowed);
      NothingLeft(policy.allowed, Fingerprints(report.findings));
      if mode == Update {
        if !result.MetricsPassed() {
          return 2;
        }
        text := BaselineText(report);
        return 0;
      }
      return if result.Passed() then 0 else 1;
    }
  }
}
