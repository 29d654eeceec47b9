/** The result document of one scan, as far as the code modelled here reads it. */
module Documents {
  import opened Wrappers

  /** `Unrecognised` is any other word a hand-edited report may carry. */
  datatype State = Passed | Failed | NotChecked | Inconclusive | Unrecognised

  /** One row of the coverage block; an absent string is empty. */
  datatype CoverageRow = CoverageRow(id: string, group: string, state: State, reason: string)

  datatype ExtraCheck = ExtraCheck(id: string, passed: bool, ignored: bool, severity: string)

  datatype Vulnerability = Vulnerability(id: string, cve: string, title: string, identifier: string, severity: string)

  /** The identifier an advisory is listed under; empty for one without any. */
  function AdvisoryId(v: Vulnerability): string {
    if v.id != "" then v.id else v.identifier
  }

  datatype Lifecycle = Lifecycle(supported: bool, daysRemaining: Option<int>)

  /**
   The version an available update names: listed in the document, or, for one
   without an updates block, what asking the configured release source finds.
   */
  datatype Updates = Listed(available: Option<string>) | NotListed(lookup: Option<string>)

  /**
   A result document. `coverage` is None without a coverage block, `waiverDays`
   are the days until the next waiver ends, None when none does.
   */
  datatype Document = Document(
    rating: Option<int>, eol: bool,
    vulnerabilities: seq<Vulnerability>,
    hardenings: map<string, bool>, headers: map<string, bool>, httpsEnforced: bool,
    extraChecks: seq<ExtraCheck>, ignored: set<string>,
    updates: Updates, lifecycle: Lifecycle, waiverDays: Option<nat>,
    coverage: Option<seq<CoverageRow>>)
  {
    /** The update the document itself carries. */
    function ListedUpdate(): Option<string> {
      if updates.Listed? then updates.available else None
    }
  }

  /** Hardening measures, headers and HTTPS enforcement the document reports as absent. */
  function MissingHardenings(d: Document): set<string> {
    (set name | name in d.hardenings && !d.hardenings[name])
    + (set name | name in d.headers && !d.headers[name])
    + (if d.httpsEnforced then {} else {"httpsEnforced"})
  }
}
