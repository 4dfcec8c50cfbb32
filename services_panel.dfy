/**
 * The bulk-upload panel of the services page (`BulkIPUpload`): the name
 * filters behind the service and ACL dropdowns, the submit precondition,
 * and the analysis of the upload route's report into the success and error
 * banners. The component state is a class whose methods are the handlers
 * and the effects that keep the filtered lists in step with the searches.
 */
module ServicesPanel {
  import opened Wrappers
  import opened Strings
  import Seqs
  import Route = UploadRoute

  /** A Fastly service as the panel keeps it: `active_version` is the production environment's, when there is one. */
  datatype Service = Service(id: string, name: string, activeVersion: Option<int>, updatedAt: Option<string>)

  /** An access control list of the selected service's active version. */
  datatype Acl = Acl(id: string, name: string)

  /** The file chosen in the file input; only its text reaches the route. */
  datatype LocalFile = LocalFile(name: string, content: string)

  /** The two banners: `null` is `None`. */
  datatype Feedback = Feedback(success: Option<string>, error: Option<string>)

  const SelectionRequired := "Please select a service, ACL, and upload a file"

  /** How many failed entries the error banner lists. */
  const MaxListed := 5

  // ---------------------------------------------------------------- search filters

  /** `name.toLowerCase().includes(search.toLowerCase())`, with ASCII case folding. */
  predicate MatchesSearch(name: string, search: string)
  {
    Contains(Lower(name), Lower(search))
  }

  function ServiceName(s: Service): string { s.name }

  function AclName(a: Acl): string { a.name }

  /** `items.filter(item => item.name.toLowerCase().includes(search.toLowerCase()))`. */
  function FilterByName<T>(items: seq<T>, name: T -> string, search: string): seq<T>
  {
    Seqs.Filter(items, (x: T) => MatchesSearch(name(x), search))
  }

  /** The filter keeps exactly the items whose lower-cased name contains the lower-cased search. */
  lemma FilterByNameMembers<T>(items: seq<T>, name: T -> string, search: string, x: T)
    ensures x in FilterByName(items, name, search) <==> x in items && MatchesSearch(name(x), search)
  {
    Seqs.FilterMembers(items, (y: T) => MatchesSearch(name(y), search), x);
  }

  /** The kept items stay in list order: filtering a concatenation filters each part. */
  lemma FilterByNameKeepsOrder<T>(xs: seq<T>, ys: seq<T>, name: T -> string, search: string)
    ensures FilterByName(xs + ys, name, search) == FilterByName(xs, name, search) + FilterByName(ys, name, search)
  {
    Seqs.FilterAppend(xs, ys, (y: T) => MatchesSearch(name(y), search));
  }

  /** An empty search keeps every item. */
  lemma EmptySearchKeepsAll<T>(items: seq<T>, name: T -> string)
    ensures FilterByName(items, name, "") == items
  {
    assert Lower("") == "";
    Seqs.FilterKeepsAll(items, (y: T) => MatchesSearch(name(y), ""));
  }

  /**
   * A search whose lower-cased text contains the lower-cased text of an
   * earlier one narrows the earlier result: filtering that result again is
   * the same as filtering the whole list.
   */
  lemma NarrowerSearchRefines<T>(items: seq<T>, name: T -> string, earlier: string, later: string)
    requires Contains(Lower(later), Lower(earlier))
    ensures FilterByName(FilterByName(items, name, earlier), name, later) == FilterByName(items, name, later)
  {
    var weak := (y: T) => MatchesSearch(name(y), earlier);
    var strong := (y: T) => MatchesSearch(name(y), later);
    forall y: T | strong(y)
      ensures weak(y)
    {
      ContainsTransitive(Lower(name(y)), Lower(later), Lower(earlier));
    }
    Seqs.FilterNarrows(items, weak, strong);
  }

  /** Typing more characters after the search only removes items. */
  lemma TypingNarrows<T>(items: seq<T>, name: T -> string, search: string, more: string)
    ensures FilterByName(FilterByName(items, name, search), name, search + more) == FilterByName(items, name, search + more)
    ensures |FilterByName(items, name, search + more)| <= |FilterByName(items, name, search)|
  {
    Seqs.MapAppend(search, more, LowerChar);
    assert Lower(search + more) == Lower(search) + Lower(more);
    assert (Lower(search) + Lower(more))[..|Lower(search)|] == Lower(search);
    NarrowerSearchRefines(items, name, search, search + more);
  }

  /** The search ignores case: searching the lower-cased text finds the same items. */
  lemma SearchIgnoresCase<T>(items: seq<T>, name: T -> string, search: string)
    ensures FilterByName(items, name, Lower(search)) == FilterByName(items, name, search)
  {
    LowerIdempotent(search);
    Seqs.FilterAgrees(items, (y: T) => MatchesSearch(name(y), Lower(search)), (y: T) => MatchesSearch(name(y), search));
  }

  // ---------------------------------------------------------------- results analysis

  /**
   * `!r.ok || r.status === 'invalid'`: an `invalid` or `error` result has no
   * `ok` member, which is falsy.
   */
  predicate IsFailure(r: Route.EntryResult)
  {
    !(r.Completed? && r.ok) || r.Invalid?
  }

  /** `results.filter(IsFailure)`. */
  function FailedEntries(results: seq<Route.EntryResult>): seq<Route.EntryResult>
  {
    Seqs.Filter(results, IsFailure)
  }

  /** The `error` member of a result: completed requests have none. */
  function ErrorOf(r: Route.EntryResult): Option<string>
  {
    match r
    case Invalid(_, e) => Some(e)
    case Errored(_, e) => Some(e)
    case Completed(_, _, _, _) => None
  }

  /** `${f.ip}${f.error ? ` (${f.error})` : ''}`. */
  function Describe(r: Route.EntryResult): string
  {
    r.ip + (if ErrorOf(r).Some? && ErrorOf(r).value != "" then " (" + ErrorOf(r).value + ")" else "")
  }

  /** The list in the error banner: the first five failures, described and joined, then `...` when there are more. */
  function FailureList(failed: seq<Route.EntryResult>): string
  {
    Join(Seqs.Map(failed[..Route.Min(|failed|, MaxListed)], Describe), ", ")
      + (if |failed| > MaxListed then "..." else "")
  }

  /** The banners after a 2xx reply with `processed` and `results`. */
  function Analyze(processed: nat, results: seq<Route.EntryResult>): (f: Feedback)
    ensures f.success.Some?
    ensures f.error.None? <==> forall k :: 0 <= k < |results| ==> !IsFailure(results[k])
  {
    var failed := FailedEntries(results);
    if |failed| > 0 then
      Feedback(Some("Processed " + Decimal(processed) + " IPs with " + Decimal(|failed|) + " failures"),
               Some("Failed entries: " + FailureList(failed)))
    else
      Feedback(Some("Successfully processed all " + Decimal(processed) + " IP addresses!"), None)
  }

  /** The failed entries are exactly the results that failed, in result order. */
  lemma FailedEntriesExact(results: seq<Route.EntryResult>, more: seq<Route.EntryResult>, r: Route.EntryResult)
    ensures r in FailedEntries(results) <==> r in results && IsFailure(r)
    ensures FailedEntries(results + more) == FailedEntries(results) + FailedEntries(more)
  {
    Seqs.FilterMembers(results, IsFailure, r);
    Seqs.FilterAppend(results, more, IsFailure);
  }

  /** A result without an `ok` member is always a failure; a completed request fails exactly when its status is not 2xx. */
  lemma FailureOfRouteResult(ip: string, reply: Route.Reply)
    ensures IsFailure(Route.Complete(ip, reply)) <==> !(reply.Responded? && 200 <= reply.status <= 299)
    ensures forall e :: IsFailure(Route.Invalid(ip, e))
  {
  }

  /** With no failures, the success banner counts `processed` and there is no error banner. */
  lemma AllSucceeded(processed: nat, results: seq<Route.EntryResult>)
    requires forall k :: 0 <= k < |results| ==> !IsFailure(results[k])
    ensures Analyze(processed, results) == Feedback(Some("Successfully processed all " + Decimal(processed) + " IP addresses!"), None)
  {
    Seqs.FilterKeepsNone(results, IsFailure);
  }

  /** With K failures, the success banner counts them and the error banner lists them. */
  lemma SomeFailed(processed: nat, results: seq<Route.EntryResult>, k: nat)
    requires k < |results| && IsFailure(results[k])
    ensures var failed := FailedEntries(results);
            && |failed| > 0
            && Analyze(processed, results) == Feedback(Some("Processed " + Decimal(processed) + " IPs with " + Decimal(|failed|) + " failures"),
                                                       Some("Failed entries: " + FailureList(failed)))
  {
  }

  /** Each of the first five failures appears, described, in the list. */
  lemma FirstFailuresListed(failed: seq<Route.EntryResult>, i: nat)
    requires i < |failed| && i < MaxListed
    ensures Contains(FailureList(failed), Describe(failed[i]))
  {
    var shown := Seqs.Map(failed[..Route.Min(|failed|, MaxListed)], Describe);
    JoinContains(shown, ", ", i);
    var tail := if |failed| > MaxListed then "..." else "";
    var j := ContainsIndex(Join(shown, ", "), Describe(failed[i]));
    assert (Join(shown, ", ") + tail)[j..j + |Describe(failed[i])|] == Join(shown, ", ")[j..j + |Describe(failed[i])|];
    ContainsAt(FailureList(failed), Describe(failed[i]), j);
  }

  /** Beyond the fifth failure only the `...` shows: the list is the first five's list with `...` appended. */
  lemma FailureListTruncates(failed: seq<Route.EntryResult>)
    requires |failed| > MaxListed
    ensures FailureList(failed) == FailureList(failed[..MaxListed]) + "..."
  {
    assert failed[..MaxListed][..MaxListed] == failed[..MaxListed];
  }

  /** Up to five failures are all listed, joined with `, `, and nothing follows them. */
  lemma FailureListComplete(failed: seq<Route.EntryResult>)
    requires |failed| <= MaxListed
    ensures FailureList(failed) == Join(Seqs.Map(failed, Describe), ", ")
  {
    assert failed[..|failed|] == failed;
  }

  /** A failure shows its error in parentheses exactly when it has a non-empty one. */
  lemma DescribedWithError(r: Route.EntryResult)
    ensures ErrorOf(r).Some? && ErrorOf(r).value != "" ==> Describe(r) == r.ip + " (" + ErrorOf(r).value + ")"
    ensures ErrorOf(r).None? || ErrorOf(r).value == "" ==> Describe(r) == r.ip
    ensures r.Completed? ==> Describe(r) == r.ip
  {
  }

  // ---------------------------------------------------------------- submitting

  /** `selectedService && selectedAcl && selectedFile`. */
  predicate Ready(service: Option<Service>, acl: Option<Acl>, file: Option<LocalFile>)
  {
    service.Some? && acl.Some? && file.Some?
  }

  /** The form data the panel posts: `file`, `comment`, `serviceId`, `aclId`. */
  function FormOf(service: Service, acl: Acl, file: LocalFile, comment: string): Route.Form
  {
    map["file" := Route.File(file.content), "comment" := Route.Text(comment),
        "serviceId" := Route.Text(service.id), "aclId" := Route.Text(acl.id)]
  }

  /** A number in a template literal. */
  function NumberText(n: int): string
  {
    if n < 0 then "-" + Decimal(-n) else Decimal(n)
  }

  /** `result.error || `Upload failed with status ${response.status}``. */
  function FailureMessage(status: int, error: Option<string>): (m: string)
    ensures m != ""
  {
    if error.Some? && error.value != "" then error.value else "Upload failed with status " + NumberText(status)
  }

  /** The banners after the route replied: the thrown message for a non-2xx reply, else the analysis of the report. */
  function SubmitFeedback(response: Route.Response): (f: Feedback)
    ensures f.error.None? ==> f.success.Some?
  {
    if !(200 <= response.Status() <= 299) then Feedback(None, Some(FailureMessage(response.Status(), response.Error())))
    else Analyze(response.processed, response.results)
  }

  /** A 200 reply shows the analysis of its report. */
  lemma UploadedFeedback(processed: nat, results: seq<Route.EntryResult>)
    ensures SubmitFeedback(Route.Uploaded(processed, results)) == Analyze(processed, results)
  {
  }

  /** A refused upload shows the route's own `error` text, never the status fallback, and no success banner. */
  lemma RefusalShowsRouteError(response: Route.Response)
    requires !response.Uploaded?
    ensures SubmitFeedback(response) == Feedback(None, response.Error())
    ensures response.Error().Some? && response.Error().value != ""
  {
  }

  /** The panel's form always passes the route's field check when the ids are non-empty, and an empty comment becomes the default. */
  lemma PanelFormAccepted(service: Service, acl: Acl, file: LocalFile, comment: string)
    requires service.id != "" && acl.id != ""
    ensures Route.FirstMissing(FormOf(service, acl, file, comment)).None?
    ensures Route.CommentOf(FormOf(service, acl, file, comment)) == (if comment == "" then Route.DefaultComment else comment)
  {
    var form := FormOf(service, acl, file, comment);
    assert Route.RequiredFields == ["serviceId", "aclId", "file"];
    assert Route.HasField(form, Route.RequiredFields[0]) && Route.HasField(form, Route.RequiredFields[1]) && Route.HasField(form, Route.RequiredFields[2]);
  }

  /** The line at position `pos` was sent and the upstream reply was 2xx. */
  predicate Accepted(pos: nat, line: string, ctx: Route.Context, isIP: string -> bool, submit: (nat, Route.Request) -> Route.Reply)
  {
    var step := Route.Classify(Trim(line), ctx, isIP);
    step.Send? && submit(pos, step.request).Responded? && 200 <= submit(pos, step.request).status <= 299
  }

  /** A line's result counts as a failure exactly when the line was not accepted upstream. */
  lemma LineFailsUnlessAccepted(pos: nat, line: string, ctx: Route.Context, isIP: string -> bool,
                                submit: (nat, Route.Request) -> Route.Reply)
    requires Route.ProcessLine(pos, line, ctx, isIP, submit).Some?
    ensures IsFailure(Route.ProcessLine(pos, line, ctx, isIP, submit).value) <==> !Accepted(pos, line, ctx, isIP, submit)
  {
    var step := Route.Classify(Trim(line), ctx, isIP);
    if step.Send? {
      FailureOfRouteResult(Trim(line), submit(pos, step.request));
    }
  }

  /** The acceptance of each line, as a function of its position and text. */
  function AcceptedBy(ctx: Route.Context, isIP: string -> bool, submit: (nat, Route.Request) -> Route.Reply): (nat, string) -> bool
  {
    (pos: nat, line: string) => Accepted(pos, line, ctx, isIP, submit)
  }

  /** When the callback resolves every line and fails exactly the unaccepted ones, so do the collected results. */
  lemma FailuresPerLine(lines: seq<string>, from: nat, handle: (nat, string) -> Option<Route.EntryResult>,
                        accepted: (nat, string) -> bool)
    requires forall k :: 0 <= k < |lines| ==> handle(from + k, lines[k]).Some?
    requires forall k :: 0 <= k < |lines| ==> (IsFailure(handle(from + k, lines[k]).value) <==> !accepted(from + k, lines[k]))
    ensures |Route.Outcomes(lines, from, handle)| == |lines|
    ensures forall k :: 0 <= k < |lines| ==> (IsFailure(Route.Outcomes(lines, from, handle)[k]) <==> !accepted(from + k, lines[k]))
  {
    Route.OutcomesWhenAllPresent(lines, from, handle);
  }

  /** Over trimmed, non-blank lines, the result at each position fails exactly when that line was not accepted. */
  lemma ResultsFailUnlessAccepted(lines: seq<string>, ctx: Route.Context, isIP: string -> bool,
                                  submit: (nat, Route.Request) -> Route.Reply)
    requires Route.TrimmedLines(lines)
    ensures var results := Route.Outcomes(lines, 0, Route.HandlerOf(ctx, isIP, submit));
            && |results| == |lines|
            && forall k :: 0 <= k < |lines| ==> (IsFailure(results[k]) <==> !AcceptedBy(ctx, isIP, submit)(k, lines[k]))
  {
    var handle := Route.HandlerOf(ctx, isIP, submit);
    var accepted := AcceptedBy(ctx, isIP, submit);
    forall k | 0 <= k < |lines|
      ensures handle(0 + k, lines[k]).Some?
      ensures IsFailure(handle(0 + k, lines[k]).value) <==> !accepted(0 + k, lines[k])
    {
      Route.NullOnlyForBlank(k, lines[k], ctx, isIP, submit);
      LineFailsUnlessAccepted(k, lines[k], ctx, isIP, submit);
    }
    FailuresPerLine(lines, 0, handle, accepted);
    var results := Route.Outcomes(lines, 0, handle);
    forall k | 0 <= k < |lines|
      ensures IsFailure(results[k]) <==> !accepted(k, lines[k])
    {
      assert 0 + k == k;
    }
  }

  /** No error banner exactly when every line is accepted, given that each result fails exactly when its line is not. */
  lemma NoErrorIffAll(processed: nat, results: seq<Route.EntryResult>, lines: seq<string>, accepted: (nat, string) -> bool)
    requires |results| == |lines|
    requires forall k :: 0 <= k < |lines| ==> (IsFailure(results[k]) <==> !accepted(k, lines[k]))
    ensures Analyze(processed, results).error.None? <==> (forall k :: 0 <= k < |lines| ==> accepted(k, lines[k]))
  {
  }

  /** For trimmed lines, the banners after the route's 200 reply show no error exactly when every line was accepted. */
  lemma UploadNoErrorIffAllAccepted(lines: seq<string>, ctx: Route.Context, isIP: string -> bool,
                                    submit: (nat, Route.Request) -> Route.Reply)
    requires Route.TrimmedLines(lines)
    ensures SubmitFeedback(Route.Upload(lines, ctx, isIP, submit).0).error.None?
            <==> (forall k :: 0 <= k < |lines| ==> Accepted(k, lines[k], ctx, isIP, submit))
  {
    var results := Route.Outcomes(lines, 0, Route.HandlerOf(ctx, isIP, submit));
    var accepted := AcceptedBy(ctx, isIP, submit);
    assert SubmitFeedback(Route.Upload(lines, ctx, isIP, submit).0) == Analyze(|results|, results) by {
      Route.UploadedResults(lines, ctx, isIP, submit);
      UploadedFeedback(|results|, results);
    }
    assert Analyze(|results|, results).error.None? <==> (forall k :: 0 <= k < |lines| ==> accepted(k, lines[k])) by {
      ResultsFailUnlessAccepted(lines, ctx, isIP, submit);
      NoErrorIffAll(|results|, results, lines, accepted);
    }
    assert (forall k :: 0 <= k < |lines| ==> accepted(k, lines[k]))
       <==> (forall k :: 0 <= k < |lines| ==> Accepted(k, lines[k], ctx, isIP, submit));
  }

  /**
   * End to end: after an upload the route accepted, the panel shows no
   * error banner exactly when every parsed line of the file was sent and
   * answered 2xx.
   */
  lemma NoErrorIffAllAccepted(form: Route.Form, apiKey: Option<string>, isIP: string -> bool,
                              submit: (nat, Route.Request) -> Route.Reply)
    requires Route.Handle(form, apiKey, isIP, submit).0.Uploaded?
    ensures "file" in form && form["file"].File? && apiKey.Some? && "serviceId" in form && "aclId" in form
    ensures var lines := Route.ParseLines(form["file"].content);
            var ctx := Route.ContextOf(form, apiKey.value);
            SubmitFeedback(Route.Handle(form, apiKey, isIP, submit).0).error.None?
            <==> (forall k :: 0 <= k < |lines| ==> Accepted(k, lines[k], ctx, isIP, submit))
  {
    Route.UploadedUnfolds(form, apiKey, isIP, submit);
    var lines := Route.ParseLines(form["file"].content);
    assert Route.TrimmedLines(lines);
    UploadNoErrorIffAllAccepted(lines, Route.ContextOf(form, apiKey.value), isIP, submit);
  }

  // ---------------------------------------------------------------- the component

  /** The ACL effect fetches the version's ACLs: a service with a truthy `active_version` is selected. */
  predicate LoadsAcls(selected: Option<Service>)
  {
    selected.Some? && selected.value.activeVersion.Some? && selected.value.activeVersion.value != 0
  }

  /**
   * The state of `BulkIPUpload` once its effects have run. The loading
   * flags and the dropdowns' open state are not modelled.
   */
  class BulkIPUpload {
    var services: seq<Service>
    var filteredServices: seq<Service>
    var serviceSearch: string
    var selectedService: Option<Service>
    var acls: seq<Acl>
    var filteredAcls: seq<Acl>
    var aclSearch: string
    var selectedAcl: Option<Acl>
    var selectedFile: Option<LocalFile>
    var comment: string
    var isSubmitting: bool
    var error: Option<string>
    var success: Option<string>

    /** The two filter effects have caught up: each filtered list is its list filtered by its search. */
    ghost predicate Valid()
      reads this
    {
      && filteredServices == FilterByName(services, ServiceName, serviceSearch)
      && filteredAcls == FilterByName(acls, AclName, aclSearch)
    }

    /** The initial state of every `useState`. */
    constructor()
      ensures Valid()
      ensures services == [] && filteredServices == [] && serviceSearch == "" && selectedService.None?
      ensures acls == [] && filteredAcls == [] && aclSearch == "" && selectedAcl.None?
      ensures selectedFile.None? && comment == "" && !isSubmitting && error.None? && success.None?
    {
      services, filteredServices, serviceSearch, selectedService := [], [], "", None;
      acls, filteredAcls, aclSearch, selectedAcl := [], [], "", None;
      selectedFile, comment, isSubmitting, error, success := None, "", false, None, None;
    }

    /** The services arrived (already sorted by name); the service filter effect runs again. */
    method ServicesLoaded(list: seq<Service>)
      requires Valid()
      modifies this
      ensures Valid()
      ensures services == list && filteredServices == FilterByName(list, ServiceName, serviceSearch)
      ensures serviceSearch == old(serviceSearch) && selectedService == old(selectedService)
      ensures acls == old(acls) && filteredAcls == old(filteredAcls) && aclSearch == old(aclSearch) && selectedAcl == old(selectedAcl)
      ensures selectedFile == old(selectedFile) && comment == old(comment) && isSubmitting == old(isSubmitting)
      ensures error == old(error) && success == old(success)
    {
      services := list;
      filteredServices := list;
      filteredServices := FilterByName(services, ServiceName, serviceSearch);
    }

    /**
     * The ACL effect, run when the selected service changed: it clears the
     * ACL list unless it is about to fetch the new version's ACLs, and
     * always clears the ACL selection and search.
     */
    method SelectedServiceChanged()
      requires Valid()
      modifies this
      ensures Valid()
      ensures acls == (if LoadsAcls(selectedService) then old(acls) else [])
      ensures filteredAcls == acls && aclSearch == "" && selectedAcl.None?
      ensures services == old(services) && filteredServices == old(filteredServices)
      ensures serviceSearch == old(serviceSearch) && selectedService == old(selectedService)
      ensures selectedFile == old(selectedFile) && comment == old(comment) && isSubmitting == old(isSubmitting)
      ensures error == old(error) && success == old(success)
    {
      if !LoadsAcls(selectedService) {
        acls := [];
        filteredAcls := [];
      }
      selectedAcl := None;
      aclSearch := "";
      EmptySearchKeepsAll(acls, AclName);
      filteredAcls := FilterByName(acls, AclName, aclSearch);
    }

    /** The ACLs of the selected version arrived; the ACL filter effect runs again. */
    method AclsLoaded(list: seq<Acl>)
      requires Valid()
      modifies this
      ensures Valid()
      ensures acls == list && filteredAcls == FilterByName(list, AclName, aclSearch)
      ensures aclSearch == old(aclSearch) && selectedAcl == old(selectedAcl)
      ensures services == old(services) && filteredServices == old(filteredServices)
      ensures serviceSearch == old(serviceSearch) && selectedService == old(selectedService)
      ensures selectedFile == old(selectedFile) && comment == old(comment) && isSubmitting == old(isSubmitting)
      ensures error == old(error) && success == old(success)
    {
      acls := list;
      filteredAcls := list;
      filteredAcls := FilterByName(acls, AclName, aclSearch);
    }

    /** Typing in the service box: the search changes and the selection is dropped. */
    method ServiceSearchChanged(text: string)
      requires Valid()
      modifies this
      ensures Valid()
      ensures serviceSearch == text && selectedService.None?
      ensures filteredServices == FilterByName(services, ServiceName, text)
      ensures old(selectedService).Some? ==> acls == [] && filteredAcls == [] && aclSearch == "" && selectedAcl.None?
      ensures old(selectedService).None? ==> acls == old(acls) && filteredAcls == old(filteredAcls)
                                             && aclSearch == old(aclSearch) && selectedAcl == old(selectedAcl)
      ensures services == old(services)
      ensures selectedFile == old(selectedFile) && comment == old(comment) && isSubmitting == old(isSubmitting)
      ensures error == old(error) && success == old(success)
    {
      var changed := selectedService.Some?;
      serviceSearch := text;
      selectedService := None;
      filteredServices := FilterByName(services, ServiceName, serviceSearch);
      if changed {
        SelectedServiceChanged();
      }
    }

    /** Picking a service: it becomes the selection and its name the search. */
    method HandleServiceSelect(service: Service)
      requires Valid()
      modifies this
      ensures Valid()
      ensures selectedService == Some(service) && serviceSearch == service.name
      ensures filteredServices == FilterByName(services, ServiceName, service.name)
      ensures old(selectedService) != Some(service) ==>
                && acls == (if LoadsAcls(Some(service)) then old(acls) else [])
                && filteredAcls == acls && aclSearch == "" && selectedAcl.None?
      ensures old(selectedService) == Some(service) ==>
                acls == old(acls) && filteredAcls == old(filteredAcls) && aclSearch == old(aclSearch) && selectedAcl == old(selectedAcl)
      ensures services == old(services)
      ensures selectedFile == old(selectedFile) && comment == old(comment) && isSubmitting == old(isSubmitting)
      ensures error == old(error) && success == old(success)
    {
      var changed := selectedService != Some(service);
      selectedService := Some(service);
      serviceSearch := service.name;
      filteredServices := FilterByName(services, ServiceName, serviceSearch);
      if changed {
        SelectedServiceChanged();
      }
    }

    /** Typing in the ACL box: the search changes and the ACL selection is dropped. */
    method AclSearchChanged(text: string)
      requires Valid()
      modifies this
      ensures Valid()
      ensures aclSearch == text && selectedAcl.None? && filteredAcls == FilterByName(acls, AclName, text)
      ensures acls == old(acls)
      ensures services == old(services) && filteredServices == old(filteredServices)
      ensures serviceSearch == old(serviceSearch) && selectedService == old(selectedService)
      ensures selectedFile == old(selectedFile) && comment == old(comment) && isSubmitting == old(isSubmitting)
      ensures error == old(error) && success == old(success)
    {
      aclSearch := text;
      selectedAcl := None;
      filteredAcls := FilterByName(acls, AclName, aclSearch);
    }

    /** Picking an ACL: it becomes the selection and its name the search. */
    method HandleAclSelect(acl: Acl)
      requires Valid()
      modifies this
      ensures Valid()
      ensures selectedAcl == Some(acl) && aclSearch == acl.name && filteredAcls == FilterByName(acls, AclName, acl.name)
      ensures acls == old(acls)
      ensures services == old(services) && filteredServices == old(filteredServices)
      ensures serviceSearch == old(serviceSearch) && selectedService == old(selectedService)
      ensures selectedFile == old(selectedFile) && comment == old(comment) && isSubmitting == old(isSubmitting)
      ensures error == old(error) && success == old(success)
    {
      selectedAcl := Some(acl);
      aclSearch := acl.name;
      filteredAcls := FilterByName(acls, AclName, aclSearch);
    }

    /** `e.target.files?.[0] || null`. */
    method HandleFileChange(files: seq<LocalFile>)
      requires Valid()
      modifies this
      ensures Valid()
      ensures selectedFile == (if |files| > 0 then Some(files[0]) else None)
      ensures services == old(services) && filteredServices == old(filteredServices)
      ensures serviceSearch == old(serviceSearch) && selectedService == old(selectedService)
      ensures acls == old(acls) && filteredAcls == old(filteredAcls) && aclSearch == old(aclSearch) && selectedAcl == old(selectedAcl)
      ensures comment == old(comment) && isSubmitting == old(isSubmitting)
      ensures error == old(error) && success == old(success)
    {
      selectedFile := if |files| > 0 then Some(files[0]) else None;
    }

    /** Typing in the comment box. */
    method CommentChanged(text: string)
      requires Valid()
      modifies this
      ensures Valid()
      ensures comment == text
      ensures services == old(services) && filteredServices == old(filteredServices)
      ensures serviceSearch == old(serviceSearch) && selectedService == old(selectedService)
      ensures acls == old(acls) && filteredAcls == old(filteredAcls) && aclSearch == old(aclSearch) && selectedAcl == old(selectedAcl)
      ensures selectedFile == old(selectedFile) && isSubmitting == old(isSubmitting)
      ensures error == old(error) && success == old(success)
    {
      comment := text;
    }

    /** Clears the file and the comment; the selections stay. */
    method ResetForm()
      requires Valid()
      modifies this
      ensures Valid()
      ensures selectedFile.None? && comment == ""
      ensures services == old(services) && filteredServices == old(filteredServices)
      ensures serviceSearch == old(serviceSearch) && selectedService == old(selectedService)
      ensures acls == old(acls) && filteredAcls == old(filteredAcls) && aclSearch == old(aclSearch) && selectedAcl == old(selectedAcl)
      ensures isSubmitting == old(isSubmitting)
      ensures error == old(error) && success == old(success)
    {
      selectedFile := None;
      comment := "";
    }

    /**
     * The submit button. Without a service, an ACL and a file it only sets
     * the error banner. Otherwise it posts the form to the upload endpoint
     * `upload`, sets the banners from the reply and resets the form.
     */
    method HandleSubmit(upload: Route.Form -> Route.Response)
      requires Valid()
      modifies this
      ensures Valid()
      ensures !Ready(old(selectedService), old(selectedAcl), old(selectedFile)) ==>
                && error == Some(SelectionRequired) && success == old(success)
                && selectedFile == old(selectedFile) && comment == old(comment) && isSubmitting == old(isSubmitting)
      ensures Ready(old(selectedService), old(selectedAcl), old(selectedFile)) ==>
                var form := FormOf(old(selectedService).value, old(selectedAcl).value, old(selectedFile).value, old(comment));
                && Feedback(success, error) == SubmitFeedback(upload(form))
                && selectedFile.None? && comment == "" && !isSubmitting
      ensures services == old(services) && filteredServices == old(filteredServices)
      ensures serviceSearch == old(serviceSearch) && selectedService == old(selectedService)
      ensures acls == old(acls) && filteredAcls == old(filteredAcls) && aclSearch == old(aclSearch) && selectedAcl == old(selectedAcl)
    {
      if selectedService.None? || selectedAcl.None? || selectedFile.None? {
        error := Some(SelectionRequired);
        return;
      }
      isSubmitting := true;
      error := None;
      success := None;
      var response := upload(FormOf(selectedService.value, selectedAcl.value, selectedFile.value, comment));
      if !(200 <= response.Status() <= 299) {
        error := Some(FailureMessage(response.Status(), response.Error()));
      } else {
        var feedback := Analyze(response.processed, response.results);
        success := feedback.success;
        error := feedback.error;
      }
      isSubmitting := false;
      ResetForm();
    }
  }
}
