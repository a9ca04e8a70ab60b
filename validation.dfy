/**
 * `ValidationService`: three business rules checked against the root of a
 * published-item document, in the fixed order Status, PublishDate,
 * TestRun; the first rule that fails decides the result.
 */
module Validation {
  import opened Wrappers
  import opened Text
  import opened JsonModel
  import opened DateTimes

  /** A C# `int`. */
  type Int32 = i: int | -0x8000_0000 <= i < 0x8000_0000

  /** `ValidationOptions`. */
  datatype ValidationOptions = ValidationOptions(requiredStatus: Int32, minPublishDate: DateTime)

  /** The defaults: status 3, publication on or after 2024-08-24T00:00:00Z. */
  const DefaultValidationOptions: ValidationOptions :=
    ValidationOptions(3, DateTime(2024, 8, 24, 0, 0, 0, 0, Utc))

  /**
   * The host's date services: `DateTime.TryParse` (lenient and
   * culture-dependent) and `ToUniversalTime` (which depends on the host's
   * time zone).  Both are left uninterpreted, except that they only produce
   * values a `DateTime` can hold.
   */
  datatype HostCalendar = HostCalendar(
    tryParse: string -> Option<DateTime>,
    toUniversalTime: DateTime -> DateTime)

  ghost predicate WellBehaved(host: HostCalendar) {
    && (forall s :: host.tryParse(s).Some? ==> ValidDateTime(host.tryParse(s).value))
    && (forall d :: ValidDateTime(d) ==> ValidDateTime(host.toUniversalTime(d)))
  }

  /** `ValidationResult`: either success, or failure with its message. */
  datatype ValidationResult = Success | Failure(message: string) {
    predicate IsValid() { Success? }
    /** `ErrorMessage`: null exactly for a success. */
    function ErrorMessage(): (m: Option<string>)
      ensures m.None? <==> IsValid()
    {
      if Success? then None else Some(message)
    }
  }

  /** The roots the validator can inspect: it reads them with `TryGetProperty`,
   *  which throws on a non-object; the names it reads are kept unique. */
  predicate Inspectable(root: Json) {
    root.JObject? && DistinctNames(root.members)
  }

  /** `root.TryGetProperty(name, out v)`: the value of the one member called `name`. */
  function TryGetProperty(root: Json, name: string): (r: Option<Json>)
    requires Inspectable(root)
    ensures r.None? <==> forall i :: 0 <= i < |root.members| ==> root.members[i].0 != name
    ensures r.Some? ==> (name, r.value) in root.members
    ensures forall v :: (name, v) in root.members ==> r == Some(v)
  {
    FirstMatchNone(root.members, name);
    var r := FirstMatch(root.members, name);
    assert r.Some? ==> (name, r.value) in root.members by {
      if r.Some? {
        var k := FirstIndexOf(root.members, name);
        DistinctNamesLookup(root.members, name, k);
      }
    }
    assert forall v :: (name, v) in root.members ==> r == Some(v) by {
      forall v | (name, v) in root.members ensures r == Some(v) {
        var k :| 0 <= k < |root.members| && root.members[k] == (name, v);
        DistinctNamesLookup(root.members, name, k);
      }
    }
    r
  }

  /** The index of a member with `name`, when there is one. */
  function FirstIndexOf(members: seq<(string, Json)>, name: string): (k: nat)
    requires exists i :: 0 <= i < |members| && members[i].0 == name
    ensures k < |members| && members[k].0 == name
  {
    if members[0].0 == name then 0
    else
      assert exists i :: 0 <= i < |members[1..]| && members[1..][i].0 == name by {
        var i :| 0 <= i < |members| && members[i].0 == name;
        assert members[1..][i - 1] == members[i];
      }
      1 + FirstIndexOf(members[1..], name)
  }

  /** `GetInt32` succeeds on the Status value when it is a number. */
  predicate StatusFitsInt32(root: Json)
    requires root.JObject?
  {
    forall i :: 0 <= i < |root.members| && root.members[i].0 == "Status" && root.members[i].1.JNumber? ==>
      -0x8000_0000 <= root.members[i].1.num < 0x8000_0000
  }

  // ---- what each rule accepts, stated on the members of the root ----

  predicate StatusAccepted(root: Json, opts: ValidationOptions)
    requires root.JObject?
  {
    ("Status", JNumber(opts.requiredStatus)) in root.members
  }

  /** The instant in UTC: `d` itself when its kind is UTC, else `ToUniversalTime()`. */
  function ToUtc(d: DateTime, host: HostCalendar): DateTime {
    if d.kind == Utc then d else host.toUniversalTime(d)
  }

  /** A date string that parses to an instant on or after the configured minimum. */
  predicate DateStringAccepted(s: string, opts: ValidationOptions, host: HostCalendar)
    requires WellBehaved(host) && ValidDateTime(opts.minPublishDate)
  {
    && !IsNullOrWhiteSpace(s)
    && host.tryParse(s).Some?
    && OnOrAfter(ToUtc(host.tryParse(s).value, host), ToUtc(opts.minPublishDate, host))
  }

  predicate PublishDateAccepted(root: Json, opts: ValidationOptions, host: HostCalendar)
    requires root.JObject? && WellBehaved(host) && ValidDateTime(opts.minPublishDate)
  {
    exists i :: 0 <= i < |root.members| && root.members[i].0 == "PublishDate"
      && root.members[i].1.JString? && DateStringAccepted(root.members[i].1.str, opts, host)
  }

  predicate TestRunAccepted(root: Json)
    requires root.JObject?
  {
    ("TestRun", JBool(false)) in root.members
  }

  // ---- the three rules ----

  function ValidateStatus(root: Json, opts: ValidationOptions): (r: ValidationResult)
    requires Inspectable(root) && StatusFitsInt32(root)
    ensures r.Success? <==> StatusAccepted(root, opts)
    ensures (forall i :: 0 <= i < |root.members| ==> root.members[i].0 != "Status") ==>
              r == Failure("Status field is required")
    ensures forall v :: ("Status", v) in root.members && !v.JNumber? ==>
              r == Failure("Status must be a number")
    ensures forall n :: ("Status", JNumber(n)) in root.members && n != opts.requiredStatus ==>
              r == Failure("Status must be equal to " + IntToString(opts.requiredStatus))
  {
    match TryGetProperty(root, "Status")
    case None => Failure("Status field is required")
    case Some(JNumber(n)) =>
      assert -0x8000_0000 <= n < 0x8000_0000 by {
        var k :| 0 <= k < |root.members| && root.members[k] == ("Status", JNumber(n));
      }
      var statusValue: Int32 := n;
      if statusValue == opts.requiredStatus then Success
      else Failure("Status must be equal to " + IntToString(opts.requiredStatus))
    case Some(_) => Failure("Status must be a number")
  }

  function ValidatePublishDate(root: Json, opts: ValidationOptions, host: HostCalendar): (r: ValidationResult)
    requires Inspectable(root) && WellBehaved(host) && ValidDateTime(opts.minPublishDate)
    ensures r.Success? <==> PublishDateAccepted(root, opts, host)
    ensures (forall i :: 0 <= i < |root.members| ==> root.members[i].0 != "PublishDate") ==>
              r == Failure("PublishDate field is required")
    ensures forall v :: ("PublishDate", v) in root.members && !v.JString? ==>
              r == Failure("PublishDate must be a valid date string")
    ensures forall s :: ("PublishDate", JString(s)) in root.members ==> r == ValidateDateString(s, opts, host)
  {
    var r := match TryGetProperty(root, "PublishDate")
      case None => Failure("PublishDate field is required")
      case Some(JString(dateString)) => ValidateDateString(dateString, opts, host)
      case Some(_) => Failure("PublishDate must be a valid date string");
    assert r.Success? ==> PublishDateAccepted(root, opts, host) by {
      if r.Success? {
        var v := TryGetProperty(root, "PublishDate").value;
        var k :| 0 <= k < |root.members| && root.members[k] == ("PublishDate", v);
      }
    }
    r
  }

  /** The checks `ValidatePublishDate` makes once it holds a string. */
  function ValidateDateString(dateString: string, opts: ValidationOptions, host: HostCalendar): (r: ValidationResult)
    requires WellBehaved(host) && ValidDateTime(opts.minPublishDate)
    ensures r.Success? <==> DateStringAccepted(dateString, opts, host)
    ensures IsNullOrWhiteSpace(dateString) ==> r == Failure("PublishDate cannot be empty")
    ensures !IsNullOrWhiteSpace(dateString) && host.tryParse(dateString).None? ==>
              r == Failure("PublishDate is not in a valid date format")
    ensures !IsNullOrWhiteSpace(dateString) && host.tryParse(dateString).Some?
            && !DateStringAccepted(dateString, opts, host) ==>
              r == Failure("PublishDate must be on or after " + FormatMonthDayYear(ToUtc(opts.minPublishDate, host)))
  {
    if IsNullOrWhiteSpace(dateString) then Failure("PublishDate cannot be empty")
    else
      match host.tryParse(dateString)
      case None => Failure("PublishDate is not in a valid date format")
      case Some(publishDate) =>
        var publishDateUtc := ToUtc(publishDate, host);
        var minPublishDateUtc := ToUtc(opts.minPublishDate, host);
        if OnOrAfter(publishDateUtc, minPublishDateUtc) then Success
        else Failure("PublishDate must be on or after " + FormatMonthDayYear(minPublishDateUtc))
  }

  function ValidateTestRun(root: Json): (r: ValidationResult)
    requires Inspectable(root)
    ensures r.Success? <==> TestRunAccepted(root)
    ensures (forall i :: 0 <= i < |root.members| ==> root.members[i].0 != "TestRun") ==>
              r == Failure("TestRun field is required")
    ensures ("TestRun", JBool(true)) in root.members ==> r == Failure("TestRun must be false")
    ensures forall v :: ("TestRun", v) in root.members && !v.JBool? ==>
              r == Failure("TestRun must be a boolean value")
  {
    match TryGetProperty(root, "TestRun")
    case None => Failure("TestRun field is required")
    case Some(JBool(b)) => if b then Failure("TestRun must be false") else Success
    case Some(_) => Failure("TestRun must be a boolean value")
  }

  /**
   * `Validate`: the document is valid exactly when all three rules accept
   * it, and otherwise the result is that of the first rule, in the order
   * Status, PublishDate, TestRun, that rejects it.
   */
  function Validate(root: Json, opts: ValidationOptions, host: HostCalendar): (r: ValidationResult)
    requires Inspectable(root) && StatusFitsInt32(root)
    requires WellBehaved(host) && ValidDateTime(opts.minPublishDate)
    ensures r.IsValid() <==>
              StatusAccepted(root, opts) && PublishDateAccepted(root, opts, host) && TestRunAccepted(root)
    ensures r.IsValid() ==> r.ErrorMessage() == None
    ensures !StatusAccepted(root, opts) ==> r == ValidateStatus(root, opts)
    ensures StatusAccepted(root, opts) && !PublishDateAccepted(root, opts, host) ==>
              r == ValidatePublishDate(root, opts, host)
    ensures StatusAccepted(root, opts) && PublishDateAccepted(root, opts, host) ==>
              r == ValidateTestRun(root)
  {
    var statusValidation := ValidateStatus(root, opts);
    if !statusValidation.IsValid() then statusValidation
    else
      var publishDateValidation := ValidatePublishDate(root, opts, host);
      if !publishDateValidation.IsValid() then publishDateValidation
      else
        var testRunValidation := ValidateTestRun(root);
        if !testRunValidation.IsValid() then testRunValidation
        else Success
  }

  // ---- the documents of the validator's tests ----

  /** A root holding exactly the three fields the rules read. */
  function Document(status: int, publishDate: string, testRun: bool): Json {
    JObject([("Status", JNumber(status)), ("PublishDate", JString(publishDate)), ("TestRun", JBool(testRun))])
  }

  lemma DocumentInspectable(status: int, publishDate: string, testRun: bool)
    requires -0x8000_0000 <= status < 0x8000_0000
    ensures Inspectable(Document(status, publishDate, testRun))
    ensures StatusFitsInt32(Document(status, publishDate, testRun))
  {
  }

  /** What the rules read from such a document. */
  lemma DocumentFields(status: int, publishDate: string, testRun: bool)
    ensures Inspectable(Document(status, publishDate, testRun))
    ensures TryGetProperty(Document(status, publishDate, testRun), "Status") == Some(JNumber(status))
    ensures TryGetProperty(Document(status, publishDate, testRun), "PublishDate") == Some(JString(publishDate))
    ensures TryGetProperty(Document(status, publishDate, testRun), "TestRun") == Some(JBool(testRun))
  {
    var root := Document(status, publishDate, testRun);
    assert root.members[0] == ("Status", JNumber(status));
    assert root.members[1] == ("PublishDate", JString(publishDate));
    assert root.members[2] == ("TestRun", JBool(testRun));
  }

  /**
   * The verdict on such a document: the status message when the status is
   * not the required one, else the date rule's failure, else the test-run
   * refusal, else success.
   */
  lemma DocumentVerdict(status: Int32, publishDate: string, testRun: bool, opts: ValidationOptions, host: HostCalendar)
    requires WellBehaved(host) && ValidDateTime(opts.minPublishDate)
    ensures Inspectable(Document(status, publishDate, testRun)) && StatusFitsInt32(Document(status, publishDate, testRun))
    ensures Validate(Document(status, publishDate, testRun), opts, host) ==
              if status != opts.requiredStatus then Failure("Status must be equal to " + IntToString(opts.requiredStatus))
              else if ValidateDateString(publishDate, opts, host).Failure? then ValidateDateString(publishDate, opts, host)
              else if testRun then Failure("TestRun must be false")
              else Success
  {
    var root := Document(status, publishDate, testRun);
    DocumentFields(status, publishDate, testRun);
    DocumentInspectable(status, publishDate, testRun);
    assert ("PublishDate", JString(publishDate)) in root.members;
    assert ValidateStatus(root, opts)
        == if status == opts.requiredStatus then Success
           else Failure("Status must be equal to " + IntToString(opts.requiredStatus));
    assert ValidateTestRun(root) == if testRun then Failure("TestRun must be false") else Success;
  }

  /** A document with the required status, a later date and no test run is valid. */
  lemma ValidDocumentAccepted(host: HostCalendar)
    requires WellBehaved(host)
    requires host.tryParse("2024-08-26T18:19:59Z").Some?
    requires ToUtc(host.tryParse("2024-08-26T18:19:59Z").value, host) == DateTime(2024, 8, 26, 18, 19, 59, 0, Utc)
    ensures Validate(Document(3, "2024-08-26T18:19:59Z", false), DefaultValidationOptions, host) == Success
  {
    DocumentVerdict(3, "2024-08-26T18:19:59Z", false, DefaultValidationOptions, host);
    LaterDateAccepted(host);
  }

  /** The date string of the valid test document passes the date rule. */
  lemma LaterDateAccepted(host: HostCalendar)
    requires WellBehaved(host)
    requires host.tryParse("2024-08-26T18:19:59Z").Some?
    requires ToUtc(host.tryParse("2024-08-26T18:19:59Z").value, host) == DateTime(2024, 8, 26, 18, 19, 59, 0, Utc)
    ensures ValidateDateString("2024-08-26T18:19:59Z", DefaultValidationOptions, host) == Success
  {
    assert !IsNullOrWhiteSpace("2024-08-26T18:19:59Z") by {
      assert !IsWhiteSpace("2024-08-26T18:19:59Z"[0]);
    }
    TicksFollowCalendar(DefaultValidationOptions.minPublishDate, DateTime(2024, 8, 26, 18, 19, 59, 0, Utc));
  }

  /** A status of 2 is reported with the required value. */
  lemma WrongStatusRejected(host: HostCalendar)
    requires WellBehaved(host)
    ensures Validate(Document(2, "2024-08-26T18:19:59Z", false), DefaultValidationOptions, host)
              == Failure("Status must be equal to 3")
  {
    DocumentVerdict(2, "2024-08-26T18:19:59Z", false, DefaultValidationOptions, host);
    assert NatToString(3) == "3";
  }

  /** The default minimum, formatted as in the error message. */
  lemma DefaultMinimumFormatted()
    ensures FormatMonthDayYear(DefaultValidationOptions.minPublishDate) == "08/24/2024"
  {
    assert ZeroPad(8, 2) == "08" by {
      assert NatToString(8) == "8";
    }
    assert ZeroPad(24, 2) == "24" by {
      assert NatToString(24) == "24";
    }
    assert ZeroPad(2024, 4) == "2024" by {
      assert NatToString(2024) == "2024";
    }
  }

  /** A date before the minimum is reported with the minimum as `08/24/2024`. */
  lemma EarlyDateStringRejected(host: HostCalendar)
    requires WellBehaved(host)
    requires host.tryParse("2024-08-20T18:19:59Z").Some?
    requires ToUtc(host.tryParse("2024-08-20T18:19:59Z").value, host) == DateTime(2024, 8, 20, 18, 19, 59, 0, Utc)
    ensures ValidateDateString("2024-08-20T18:19:59Z", DefaultValidationOptions, host)
              == Failure("PublishDate must be on or after 08/24/2024")
  {
    var date := "2024-08-20T18:19:59Z";
    assert !IsNullOrWhiteSpace(date) by {
      assert !IsWhiteSpace(date[0]);
    }
    var early := DateTime(2024, 8, 20, 18, 19, 59, 0, Utc);
    var min := DefaultValidationOptions.minPublishDate;
    assert !OnOrAfter(early, min) by {
      TicksFollowCalendar(early, min);
    }
    DefaultMinimumMessage(host);
  }

  /** The message for an early date under the defaults, whatever the host's time zone. */
  lemma DefaultMinimumMessage(host: HostCalendar)
    ensures "PublishDate must be on or after " + FormatMonthDayYear(ToUtc(DefaultValidationOptions.minPublishDate, host))
         == "PublishDate must be on or after 08/24/2024"
  {
    DefaultMinimumFormatted();
  }

  /** The same, for the whole document of the test: Status passes, the date does not. */
  lemma EarlyPublishDateRejected(host: HostCalendar)
    requires WellBehaved(host)
    requires host.tryParse("2024-08-20T18:19:59Z").Some?
    requires ToUtc(host.tryParse("2024-08-20T18:19:59Z").value, host) == DateTime(2024, 8, 20, 18, 19, 59, 0, Utc)
    ensures Validate(Document(3, "2024-08-20T18:19:59Z", false), DefaultValidationOptions, host)
              == Failure("PublishDate must be on or after 08/24/2024")
  {
    DocumentVerdict(3, "2024-08-20T18:19:59Z", false, DefaultValidationOptions, host);
    EarlyDateStringRejected(host);
  }

  /** A test run is refused even when everything else is valid. */
  lemma TestRunRejected(host: HostCalendar)
    requires WellBehaved(host)
    requires host.tryParse("2024-08-26T18:19:59Z").Some?
    requires ToUtc(host.tryParse("2024-08-26T18:19:59Z").value, host) == DateTime(2024, 8, 26, 18, 19, 59, 0, Utc)
    ensures Validate(Document(3, "2024-08-26T18:19:59Z", true), DefaultValidationOptions, host)
              == Failure("TestRun must be false")
  {
    DocumentVerdict(3, "2024-08-26T18:19:59Z", true, DefaultValidationOptions, host);
    LaterDateAccepted(host);
  }

  /**
   * A document that breaks both the Status and the PublishDate rule
   * reports the Status error and nothing of the date.
   */
  lemma StatusErrorHidesDateError(root: Json, opts: ValidationOptions, host: HostCalendar)
    requires Inspectable(root) && StatusFitsInt32(root)
    requires WellBehaved(host) && ValidDateTime(opts.minPublishDate)
    requires !StatusAccepted(root, opts) && !PublishDateAccepted(root, opts, host)
    ensures Validate(root, opts, host).Failure?
    ensures Validate(root, opts, host).message in
              {"Status field is required", "Status must be a number",
               "Status must be equal to " + IntToString(opts.requiredStatus)}
  {
  }

  /**
   * The comparison is inclusive: a date string that parses to exactly the
   * configured minimum (in UTC) is accepted.
   */
  lemma MinimumDateAccepted(s: string, opts: ValidationOptions, host: HostCalendar)
    requires WellBehaved(host) && ValidDateTime(opts.minPublishDate)
    requires !IsNullOrWhiteSpace(s) && host.tryParse(s).Some?
    requires ToUtc(host.tryParse(s).value, host) == ToUtc(opts.minPublishDate, host)
    ensures ValidateDateString(s, opts, host) == Success
  {
    OnOrAfterIsCalendarOrder(ToUtc(opts.minPublishDate, host), ToUtc(opts.minPublishDate, host));
  }
}
