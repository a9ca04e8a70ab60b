/**
 * What `PublishedItemXmlBuilder` writes for a JSON document, as an element
 * tree: the root element with `Title`, `Countries`, `PublishedDate` and
 * `ContactInformation`, the contact groups taken from
 * `ReportMetadata.ContactSection[].ContactInformation[]`, and the persons in
 * each group.  Every string field is read with `GetString() ?? ""`, which
 * fails on a value that is neither a string nor null; such a fault is the
 * `Err` case of each function, and the first fault in reading order is the
 * one reported.
 */
module PublishedItemXml {
  import opened Wrappers
  import opened Text
  import opened JsonModel
  import opened Xml

  /** `XmlConversionOptions`. */
  datatype XmlConversionOptions = XmlConversionOptions(
    rootElementName: string,
    indentXml: bool,
    indentChars: string,
    omitXmlDeclaration: bool,
    encoding: string)

  const DefaultXmlConversionOptions: XmlConversionOptions :=
    XmlConversionOptions("Root", true, "    ", false, "utf-8")

  datatype Encoding = UTF8 | Unicode | ASCII

  /**
   * The encoding named in the options, compared case-insensitively; any
   * name that is not recognised falls back to UTF-8.
   */
  function ParseEncoding(name: string): (e: Encoding)
    ensures e == Unicode <==> ToLowerAsciiString(name) in ["utf-16", "utf16", "unicode"]
    ensures e == ASCII <==> ToLowerAsciiString(name) == "ascii"
    ensures ToLowerAsciiString(name) in ["utf-8", "utf8"] ==> e == UTF8
  {
    var n := ToLowerAsciiString(name);
    if n == "utf-8" || n == "utf8" then UTF8
    else if n == "utf-16" || n == "utf16" || n == "unicode" then Unicode
    else if n == "ascii" then ASCII
    else UTF8
  }

  /**
   * The encoding the XML declaration names.  The writer writes into a
   * `StringWriter` whose own encoding is UTF-8, and that, not the options'
   * encoding, is what the declaration reports.
   */
  const DeclaredEncoding: string := "utf-8"

  // ---- reading string fields ----

  /** `GetString()` on an element that is neither a string nor null. */
  datatype Fault = NotAString(kind: Kind)

  /** The message of the `InvalidOperationException` that `GetString()` throws. */
  function FaultMessage(f: Fault): string {
    "The requested operation requires an element of type 'String', but the target element has type '"
    + KindName(f.kind) + "'."
  }

  function ErrorOf<T>(r: Result<T, Fault>): (e: Option<Fault>)
    ensures e.None? <==> r.Ok?
  {
    if r.Err? then Some(r.error) else None
  }

  /** Reading the field as a string cannot fail: it is absent, null or a string. */
  predicate StringOrAbsent(element: Json, name: string) {
    match PropertyOrDefault(element, name)
    case None => true
    case Some(v) => v.JString? || v.JNull?
  }

  /** `ExtractStringProperty`: the field's string, or "" when it is absent or null. */
  function ExtractStringProperty(element: Json, name: string): (r: Result<string, Fault>)
    ensures r.Ok? <==> StringOrAbsent(element, name)
    ensures r == Ok("") <==> PropertyOrDefault(element, name) in {None, Some(JNull), Some(JString(""))}
    ensures (PropertyOrDefault(element, name).Some? && PropertyOrDefault(element, name).value.JString?)
              ==> r == Ok(PropertyOrDefault(element, name).value.str)
    ensures r.Err? ==> PropertyOrDefault(element, name).Some?
                       && r.error == NotAString(KindOf(PropertyOrDefault(element, name).value))
  {
    match PropertyOrDefault(element, name)
    case None => Ok("")
    case Some(v) =>
      if v.JString? then Ok(v.str)
      else if v.JNull? then Ok("")
      else Err(NotAString(KindOf(v)))
  }

  // ---- Title and PublishedDate ----

  /**
   * `WriteTitle` / `WritePublishedDate`: the element `tag` holding the field's
   * text verbatim (white space included), omitted when the field is absent,
   * null or empty.
   */
  function OptionalStringElement(root: Json, property: string, tag: string): (r: Result<seq<Node>, Fault>)
    ensures r.Ok? <==> StringOrAbsent(root, property)
    ensures r == Ok([]) <==> PropertyOrDefault(root, property) in {None, Some(JNull), Some(JString(""))}
    ensures r.Ok? && |r.value| > 0 ==>
              && PropertyOrDefault(root, property).Some?
              && PropertyOrDefault(root, property).value.JString?
              && r.value == [TextElement(tag, PropertyOrDefault(root, property).value.str)]
  {
    match ExtractStringProperty(root, property)
    case Err(e) => Err(e)
    case Ok(s) => if IsNullOrEmpty(s) then Ok([]) else Ok([TextElement(tag, s)])
  }

  /** A title of white space only is still written. */
  lemma BlankTitleWritten()
    ensures OptionalStringElement(JObject([("Title", JString(" "))]), "Title", "Title")
            == Ok([TextElement("Title", " ")])
  {
    assert PropertyOrDefault(JObject([("Title", JString(" "))]), "Title") == Some(JString(" "));
  }

  // ---- Countries ----

  /** One entry of `CountryIds` through `GetString()` and the blank filter. */
  function CountryString(item: Json): Result<seq<string>, Fault> {
    match item
    case JString(s) => Ok(if IsNullOrWhiteSpace(s) then [] else [s])
    case JNull => Ok([])
    case _ => Err(NotAString(KindOf(item)))
  }

  /** The first fault of two results read one after the other, or both lists. */
  function Concat<T>(a: Result<seq<T>, Fault>, b: Result<seq<T>, Fault>): Result<seq<T>, Fault> {
    match a
    case Err(e) => Err(e)
    case Ok(x) =>
      match b
      case Err(e) => Err(e)
      case Ok(y) => Ok(x + y)
  }

  lemma ConcatAssociative<T>(a: Result<seq<T>, Fault>, b: Result<seq<T>, Fault>, c: Result<seq<T>, Fault>)
    ensures Concat(Concat(a, b), c) == Concat(a, Concat(b, c))
  {
    if a.Ok? && b.Ok? && c.Ok? {
      assert a.value + b.value + c.value == a.value + (b.value + c.value);
    }
  }

  /**
   * `ExtractCountryList`'s pipeline over the entries of `CountryIds`: the
   * string entries in order, without nulls and blank strings; the first
   * entry of another kind is a fault.
   */
  function CountryStrings(items: seq<Json>): (r: Result<seq<string>, Fault>)
    ensures r.Ok? <==> forall i :: 0 <= i < |items| ==> items[i].JString? || items[i].JNull?
    ensures r.Ok? ==> forall j :: 0 <= j < |r.value| ==> !IsNullOrWhiteSpace(r.value[j])
    ensures r.Ok? ==> |r.value| <= |items|
  {
    if |items| == 0 then Ok([])
    else
      assert forall i :: 1 <= i < |items| ==> items[i] == items[1..][i - 1];
      Concat(CountryString(items[0]), CountryStrings(items[1..]))
  }

  /** The entries are read in order: the list of a concatenation is the concatenation. */
  lemma {:induction false} CountryStringsAppend(a: seq<Json>, b: seq<Json>)
    ensures CountryStrings(a + b) == Concat(CountryStrings(a), CountryStrings(b))
  {
    if |a| == 0 {
      assert a + b == b;
      if CountryStrings(b).Ok? {
        assert [] + CountryStrings(b).value == CountryStrings(b).value;
      }
    } else {
      assert (a + b)[0] == a[0];
      assert (a + b)[1..] == a[1..] + b;
      CountryStringsAppend(a[1..], b);
      ConcatAssociative(CountryString(a[0]), CountryStrings(a[1..]), CountryStrings(b));
    }
  }

  /** A country is listed exactly when it is one of the non-blank string entries. */
  lemma {:induction false} CountryStringsMembers(items: seq<Json>, x: string)
    requires CountryStrings(items).Ok?
    ensures x in CountryStrings(items).value <==>
            exists i :: 0 <= i < |items| && items[i] == JString(x) && !IsNullOrWhiteSpace(x)
  {
    if |items| > 0 {
      CountryStringsMembers(items[1..], x);
      assert forall i :: 1 <= i < |items| ==> items[i] == items[1..][i - 1];
      if exists i :: 0 <= i < |items| && items[i] == JString(x) && !IsNullOrWhiteSpace(x) {
        var i :| 0 <= i < |items| && items[i] == JString(x) && !IsNullOrWhiteSpace(x);
        if i > 0 {
          assert items[1..][i - 1] == JString(x);
        }
      }
    }
  }

  /** The entries of an array of strings. */
  function StringItems(xs: seq<string>): (r: seq<Json>)
    ensures |r| == |xs| && forall i :: 0 <= i < |xs| ==> r[i] == JString(xs[i])
  {
    seq(|xs|, i requires 0 <= i < |xs| => JString(xs[i]))
  }

  /** Countries that are all non-blank strings are listed as they are, in order. */
  lemma {:induction false} NonBlankCountriesKept(xs: seq<string>)
    requires forall i :: 0 <= i < |xs| ==> !IsNullOrWhiteSpace(xs[i])
    ensures CountryStrings(StringItems(xs)) == Ok(xs)
  {
    if |xs| > 0 {
      assert StringItems(xs)[1..] == StringItems(xs[1..]);
      NonBlankCountriesKept(xs[1..]);
      assert [xs[0]] + xs[1..] == xs;
    }
  }

  /** `ExtractCountryList`: nothing unless the root is an object with an array `CountryIds`. */
  function ExtractCountryList(root: Json): (r: Result<seq<string>, Fault>)
    ensures !root.JObject? ==> r == Ok([])
    ensures (match PropertyOrDefault(root, "CountryIds") case Some(JArray(_)) => false case _ => true)
              ==> r == Ok([])
    ensures (match PropertyOrDefault(root, "CountryIds") case Some(JArray(items)) => r == CountryStrings(items) case _ => true)
  {
    if !root.JObject? then Ok([])
    else
      match PropertyOrDefault(root, "CountryIds")
      case Some(JArray(items)) => CountryStrings(items)
      case _ => Ok([])
  }

  /** `Countries`, always written; its text only when some country is listed. */
  function CountriesElement(countries: seq<string>): Node {
    Element("Countries", [], if |countries| > 0 then [Text(Join(countries, ", "))] else [])
  }

  /**
   * The text of `Countries` determines the list it was joined from, as long
   * as no country contains a comma: splitting it at ", " gives the list back.
   */
  lemma CountriesTextRecoversList(countries: seq<string>)
    requires |countries| > 0
    requires forall i :: 0 <= i < |countries| ==> ',' !in countries[i]
    ensures CountriesElement(countries).children == [Text(Join(countries, ", "))]
    ensures Split(CountriesElement(countries).children[0].text, ", ") == countries
  {
    SplitJoin(countries, ", ");
  }

  // ---- contact sections ----

  /** The `ContactInformation` array of one `ContactSection` item, or nothing. */
  function ContactInformationItems(section: Json): seq<Json> {
    match PropertyOrDefault(section, "ContactInformation")
    case Some(JArray(items)) => items
    case _ => []
  }

  function FlattenContactInformation(sections: seq<Json>): seq<Json> {
    if |sections| == 0 then []
    else ContactInformationItems(sections[0]) + FlattenContactInformation(sections[1..])
  }

  /**
   * `ExtractContactSections`: the `ContactInformation` arrays of all
   * `ReportMetadata.ContactSection` items, concatenated in order.
   */
  function ExtractContactSections(root: Json): (r: seq<Json>)
    ensures (match PropertyOrDefault(root, "ReportMetadata") case Some(JObject(_)) => false case _ => true)
              ==> r == []
    ensures (match PropertyOrDefault(root, "ReportMetadata")
             case Some(JObject(m)) =>
               (match PropertyOrDefault(JObject(m), "ContactSection")
                case Some(JArray(sections)) => r == FlattenContactInformation(sections)
                case _ => r == [])
             case _ => true)
  {
    match PropertyOrDefault(root, "ReportMetadata")
    case Some(metadata) =>
      if !metadata.JObject? then []
      else
        (match PropertyOrDefault(metadata, "ContactSection")
         case Some(JArray(sections)) => FlattenContactInformation(sections)
         case _ => [])
    case None => []
  }

  lemma {:induction false} FlattenAppend(a: seq<Json>, b: seq<Json>)
    ensures FlattenContactInformation(a + b) == FlattenContactInformation(a) + FlattenContactInformation(b)
  {
    if |a| == 0 {
      assert a + b == b;
    } else {
      assert (a + b)[0] == a[0];
      assert (a + b)[1..] == a[1..] + b;
      FlattenAppend(a[1..], b);
    }
  }

  /** A group is a candidate exactly when it is an entry of some item's `ContactInformation`. */
  lemma {:induction false} FlattenMembers(sections: seq<Json>, c: Json)
    ensures c in FlattenContactInformation(sections) <==>
            exists i :: 0 <= i < |sections| && c in ContactInformationItems(sections[i])
  {
    if |sections| > 0 {
      FlattenMembers(sections[1..], c);
      assert forall i :: 1 <= i < |sections| ==> sections[i] == sections[1..][i - 1];
      if exists i :: 0 <= i < |sections| && c in ContactInformationItems(sections[i]) {
        var i :| 0 <= i < |sections| && c in ContactInformationItems(sections[i]);
        if i > 0 {
          assert c in ContactInformationItems(sections[1..][i - 1]);
        }
      }
    }
  }

  /**
   * `ValidateContactSection`: the group's header and contacts when the header
   * is not blank and `Contacts` is an array (possibly empty), else `None`.
   */
  function ValidateContactSection(section: Json): (r: Result<Option<(string, seq<Json>)>, Fault>)
    ensures r.Err? <==> !StringOrAbsent(section, "ContactHeader")
    ensures r.Ok? && r.value.Some? ==>
              && ExtractStringProperty(section, "ContactHeader") == Ok(r.value.value.0)
              && !IsNullOrWhiteSpace(r.value.value.0)
              && PropertyOrDefault(section, "Contacts") == Some(JArray(r.value.value.1))
    ensures r == Ok(None) <==>
              && ExtractStringProperty(section, "ContactHeader").Ok?
              && (|| IsNullOrWhiteSpace(ExtractStringProperty(section, "ContactHeader").value)
                  || !(PropertyOrDefault(section, "Contacts").Some? && PropertyOrDefault(section, "Contacts").value.JArray?))
  {
    match ExtractStringProperty(section, "ContactHeader")
    case Err(e) => Err(e)
    case Ok(groupName) =>
      if IsNullOrWhiteSpace(groupName) then Ok(None)
      else
        match PropertyOrDefault(section, "Contacts")
        case Some(JArray(contacts)) => Ok(Some((groupName, contacts)))
        case _ => Ok(None)
  }

  // ---- persons ----

  /** `PersonData`, the four strings read from one contact. */
  datatype PersonData = PersonData(firstName: string, lastName: string, jobTitle: string, phoneNumber: string) {
    /** A person is written when at least one name is not blank. */
    predicate IsValid() {
      !IsNullOrWhiteSpace(firstName) || !IsNullOrWhiteSpace(lastName)
    }

    /**
     * `GetDisplayName`: the trimmed names joined by one space, or the one
     * trimmed name that is not empty.  It is blank exactly when the person
     * is not valid.
     */
    function DisplayName(): (r: string)
      ensures IsNullOrWhiteSpace(r) <==> !IsValid()
      ensures |Trim(firstName)| > 0 && |Trim(lastName)| > 0 ==> r == Trim(firstName) + " " + Trim(lastName)
      ensures |Trim(firstName)| > 0 && |Trim(lastName)| == 0 ==> r == Trim(firstName)
      ensures |Trim(firstName)| == 0 && |Trim(lastName)| > 0 ==> r == Trim(lastName)
    {
      var f := Trim(firstName);
      var l := Trim(lastName);
      if |f| == 0 && |l| == 0 then ""
      else if |l| == 0 then f
      else if |f| == 0 then l
      else
        assert !IsWhiteSpace((f + " " + l)[0]);
        f + " " + l
    }
  }

  /** Every field of the contact can be read as a string. */
  predicate PersonWellTyped(contact: Json) {
    && StringOrAbsent(contact, "FirstName")
    && StringOrAbsent(contact, "LastName")
    && StringOrAbsent(contact, "Title")
    && StringOrAbsent(contact, "PhoneNumber")
  }

  /**
   * `ExtractPersonData`: `FirstName`, `LastName`, `Title` (as the job title)
   * and `PhoneNumber`, read in that order; a non-object contact gives four
   * empty strings.
   */
  function ExtractPersonData(contact: Json): (r: Result<PersonData, Fault>)
    ensures r.Ok? <==> PersonWellTyped(contact)
    ensures r.Ok? ==>
              && Ok(r.value.firstName) == ExtractStringProperty(contact, "FirstName")
              && Ok(r.value.lastName) == ExtractStringProperty(contact, "LastName")
              && Ok(r.value.jobTitle) == ExtractStringProperty(contact, "Title")
              && Ok(r.value.phoneNumber) == ExtractStringProperty(contact, "PhoneNumber")
    ensures !contact.JObject? ==> r == Ok(PersonData("", "", "", ""))
  {
    match ExtractStringProperty(contact, "FirstName")
    case Err(e) => Err(e)
    case Ok(firstName) =>
      match ExtractStringProperty(contact, "LastName")
      case Err(e) => Err(e)
      case Ok(lastName) =>
        match ExtractStringProperty(contact, "Title")
        case Err(e) => Err(e)
        case Ok(jobTitle) =>
          match ExtractStringProperty(contact, "PhoneNumber")
          case Err(e) => Err(e)
          case Ok(phoneNumber) => Ok(PersonData(firstName, lastName, jobTitle, phoneNumber))
  }

  /** An element written with `WriteElementString` only for non-blank text. */
  function OptionalTextElement(tag: string, text: string): (r: seq<Node>)
    ensures r == [] <==> IsNullOrWhiteSpace(text)
    ensures r != [] ==> r == [TextElement(tag, text)]
  {
    if IsNullOrWhiteSpace(text) then [] else [TextElement(tag, text)]
  }

  /** `WritePersonName`: family name and given name untrimmed, then the display name. */
  function PersonNameNodes(p: PersonData): seq<Node> {
    OptionalTextElement("FamilyName", p.lastName)
    + OptionalTextElement("GivenName", p.firstName)
    + OptionalTextElement("DisplayName", p.DisplayName())
  }

  /** `WritePersonJobTitle`. */
  function JobTitleNodes(jobTitle: string): seq<Node> {
    OptionalTextElement("JobTitle", jobTitle)
  }

  /** `WritePersonContactInfo`: `ContactInfo/Phone/Number`, or nothing for a blank number. */
  function ContactInfoNodes(phoneNumber: string): (r: seq<Node>)
    ensures r == [] <==> IsNullOrWhiteSpace(phoneNumber)
  {
    if IsNullOrWhiteSpace(phoneNumber) then []
    else [Element("ContactInfo", [], [Element("Phone", [], [TextElement("Number", phoneNumber)])])]
  }

  /** `Person`, with its children in the order the writer emits them. */
  function PersonElement(p: PersonData): Node {
    Element("Person", [], PersonNameNodes(p) + JobTitleNodes(p.jobTitle) + ContactInfoNodes(p.phoneNumber))
  }

  /** `WritePersonGroupMember`: one `PersonGroupMember` wrapping the `Person`. */
  function PersonGroupMemberElement(p: PersonData): Node {
    Element("PersonGroupMember", [], [PersonElement(p)])
  }

  /**
   * The children of `Person` come in the order FamilyName, GivenName,
   * DisplayName, JobTitle, ContactInfo; each is present exactly when its
   * text is not blank, the display name exactly when the person is valid;
   * the family and given names are written untrimmed.
   */
  lemma PersonChildren(p: PersonData)
    ensures ChildTags(PersonElement(p)) ==
              (if IsNullOrWhiteSpace(p.lastName) then [] else ["FamilyName"])
              + (if IsNullOrWhiteSpace(p.firstName) then [] else ["GivenName"])
              + (if p.IsValid() then ["DisplayName"] else [])
              + (if IsNullOrWhiteSpace(p.jobTitle) then [] else ["JobTitle"])
              + (if IsNullOrWhiteSpace(p.phoneNumber) then [] else ["ContactInfo"])
    ensures !IsNullOrWhiteSpace(p.lastName) ==> TextElement("FamilyName", p.lastName) in PersonElement(p).children
    ensures !IsNullOrWhiteSpace(p.firstName) ==> TextElement("GivenName", p.firstName) in PersonElement(p).children
    ensures p.IsValid() ==> TextElement("DisplayName", p.DisplayName()) in PersonElement(p).children
    ensures !IsNullOrWhiteSpace(p.jobTitle) ==> TextElement("JobTitle", p.jobTitle) in PersonElement(p).children
  {
    var a := OptionalTextElement("FamilyName", p.lastName);
    var b := OptionalTextElement("GivenName", p.firstName);
    var c := OptionalTextElement("DisplayName", p.DisplayName());
    var d := JobTitleNodes(p.jobTitle);
    var e := ContactInfoNodes(p.phoneNumber);
    assert PersonElement(p).children == a + b + c + d + e;
    OptionalTags("FamilyName", p.lastName);
    OptionalTags("GivenName", p.firstName);
    OptionalTags("DisplayName", p.DisplayName());
    OptionalTags("JobTitle", p.jobTitle);
    assert Tags(e) == if IsNullOrWhiteSpace(p.phoneNumber) then [] else ["ContactInfo"];
    TagsAppend(a, b);
    TagsAppend(a + b, c);
    TagsAppend(a + b + c, d);
    TagsAppend(a + b + c + d, e);
  }

  lemma OptionalTags(tag: string, text: string)
    ensures Tags(OptionalTextElement(tag, text)) == if IsNullOrWhiteSpace(text) then [] else [tag]
  {
  }

  /**
   * The members of a group: one `PersonGroupMember` for every contact whose
   * person is valid, in order; the first contact whose fields cannot be
   * read as strings ends the walk with its fault.
   */
  function Members(contacts: seq<Json>): (r: Result<seq<Node>, Fault>)
    ensures r.Ok? ==> |r.value| <= |contacts|
    decreases |contacts|
  {
    if |contacts| == 0 then Ok([])
    else
      var init := contacts[..|contacts| - 1];
      match Members(init)
      case Err(e) => Err(e)
      case Ok(members) =>
        match MemberOf(contacts[|contacts| - 1])
        case Err(e) => Err(e)
        case Ok(member) => Ok(members + member)
  }

  /** What one contact adds to its group: its member when the person is valid. */
  function MemberOf(contact: Json): (r: Result<seq<Node>, Fault>)
    ensures r.Ok? <==> PersonWellTyped(contact)
    ensures r.Ok? ==> |r.value| <= 1
  {
    match ExtractPersonData(contact)
    case Err(e) => Err(e)
    case Ok(p) => Ok(if p.IsValid() then [PersonGroupMemberElement(p)] else [])
  }

  /** The walk over the contacts succeeds exactly when every contact's fields are strings. */
  lemma {:induction false} MembersSucceed(contacts: seq<Json>)
    ensures Members(contacts).Ok? <==> forall i :: 0 <= i < |contacts| ==> PersonWellTyped(contacts[i])
    decreases |contacts|
  {
    if |contacts| > 0 {
      var init := contacts[..|contacts| - 1];
      MembersSucceed(init);
      assert Members(contacts).Ok? <==> Members(init).Ok? && MemberOf(contacts[|contacts| - 1]).Ok?;
      ForallSplitLast(contacts, init, c => PersonWellTyped(c));
    }
  }

  /** A property holds of all of `xs` exactly when it holds of all but the last element, and of the last. */
  lemma {:induction false} ForallSplitLast<T>(xs: seq<T>, init: seq<T>, P: T -> bool)
    requires |xs| > 0 && init == xs[..|xs| - 1]
    ensures (forall i :: 0 <= i < |xs| ==> P(xs[i])) <==>
            (forall i :: 0 <= i < |init| ==> P(init[i])) && P(xs[|xs| - 1])
  {
    assert forall i :: 0 <= i < |init| ==> init[i] == xs[i];
  }

  /** The members of the first `i + 1` contacts extend those of the first `i` by the i-th contact's. */
  lemma MembersNext(contacts: seq<Json>, i: nat)
    requires i < |contacts| && Members(contacts[..i]).Ok? && ExtractPersonData(contacts[i]).Ok?
    ensures var p := ExtractPersonData(contacts[i]).value;
      Members(contacts[..i + 1])
        == Ok(Members(contacts[..i]).value + if p.IsValid() then [PersonGroupMemberElement(p)] else [])
  {
    var prefix := contacts[..i + 1];
    assert |prefix| == i + 1 && prefix[|prefix| - 1] == contacts[i];
    assert prefix[..|prefix| - 1] == contacts[..i];
    var p := ExtractPersonData(contacts[i]).value;
    assert MemberOf(contacts[i]) == Ok(if p.IsValid() then [PersonGroupMemberElement(p)] else []);
    assert Members(prefix) == Ok(Members(contacts[..i]).value + MemberOf(contacts[i]).value);
  }

  /** A contact whose fields cannot be read ends the walk with its fault. */
  lemma MembersFaultAt(contacts: seq<Json>, i: nat)
    requires i < |contacts| && Members(contacts[..i]).Ok? && ExtractPersonData(contacts[i]).Err?
    ensures Members(contacts) == Err(ExtractPersonData(contacts[i]).error)
  {
    var prefix := contacts[..i + 1];
    assert |prefix| == i + 1 && prefix[|prefix| - 1] == contacts[i];
    assert prefix[..|prefix| - 1] == contacts[..i];
    assert Members(prefix).Err?;
    MembersFaultPersists(contacts, i + 1);
  }

  /** Once a prefix of the contacts faults, the whole walk reports that fault. */
  lemma {:induction false} MembersFaultPersists(contacts: seq<Json>, j: nat)
    requires j <= |contacts| && Members(contacts[..j]).Err?
    ensures Members(contacts) == Members(contacts[..j])
    decreases |contacts|
  {
    if j == |contacts| {
      assert contacts[..j] == contacts;
    } else {
      var init := contacts[..|contacts| - 1];
      assert init[..j] == contacts[..j];
      MembersFaultPersists(init, j);
    }
  }

  /** The member written for `contact`, when its person is valid, is `m`. */
  predicate WritesPerson(contact: Json, m: Node) {
    match ExtractPersonData(contact)
    case Ok(p) => p.IsValid() && m == PersonGroupMemberElement(p)
    case Err(_) => false
  }

  lemma {:induction false} MembersLast(contacts: seq<Json>)
    requires |contacts| > 0 && Members(contacts).Ok?
    ensures var init := contacts[..|contacts| - 1];
      && Members(init).Ok?
      && ExtractPersonData(contacts[|contacts| - 1]).Ok?
      && var p := ExtractPersonData(contacts[|contacts| - 1]).value;
         Members(contacts).value == Members(init).value + if p.IsValid() then [PersonGroupMemberElement(p)] else []
  {
  }

  /** Some contact among `contacts` writes the member `m`. */
  predicate SomeContactWrites(contacts: seq<Json>, m: Node) {
    exists i :: 0 <= i < |contacts| && WritesPerson(contacts[i], m)
  }

  /** A witness among `xs` is a witness among all but the last element, or the last element. */
  lemma {:induction false} ExistsSplitLast<T>(xs: seq<T>, init: seq<T>, P: T -> bool)
    requires |xs| > 0 && init == xs[..|xs| - 1]
    ensures (exists i :: 0 <= i < |xs| && P(xs[i])) <==>
            (exists i :: 0 <= i < |init| && P(init[i])) || P(xs[|xs| - 1])
  {
    if exists i :: 0 <= i < |xs| && P(xs[i]) {
      var i :| 0 <= i < |xs| && P(xs[i]);
      if i < |init| {
        assert init[i] == xs[i];
      }
    }
    if exists i :: 0 <= i < |init| && P(init[i]) {
      var i :| 0 <= i < |init| && P(init[i]);
      assert init[i] == xs[i];
    }
  }

  lemma {:induction false} SomeContactWritesLast(contacts: seq<Json>, m: Node)
    requires |contacts| > 0
    ensures SomeContactWrites(contacts, m) <==>
            SomeContactWrites(contacts[..|contacts| - 1], m) || WritesPerson(contacts[|contacts| - 1], m)
  {
    ExistsSplitLast(contacts, contacts[..|contacts| - 1], c => WritesPerson(c, m));
  }

  /** A contact's person is written exactly when it is valid. */
  lemma {:induction false} MembersAreValidPersons(contacts: seq<Json>, m: Node)
    requires Members(contacts).Ok?
    ensures m in Members(contacts).value <==> SomeContactWrites(contacts, m)
    decreases |contacts|
  {
    if |contacts| > 0 {
      var init := contacts[..|contacts| - 1];
      MembersLast(contacts);
      MembersAreValidPersons(init, m);
      SomeContactWritesLast(contacts, m);
    }
  }

  // ---- person groups ----

  /** `WritePersonGroup`: the `sequence` attribute, the `Name` element, then the members. */
  function PersonGroupElement(groupName: string, members: seq<Node>, sequence: int): Node {
    Element("PersonGroup", [("sequence", IntToString(sequence))], [ElementString("Name", groupName)] + members)
  }

  /** Every string read from the group, and from its persons when it is accepted, succeeds. */
  predicate SectionWellTyped(section: Json) {
    match ValidateContactSection(section)
    case Err(_) => false
    case Ok(None) => true
    case Ok(Some((_, contacts))) => forall i :: 0 <= i < |contacts| ==> PersonWellTyped(contacts[i])
  }

  /**
   * The groups written for the candidate groups `sections`: each accepted
   * group is numbered one more than the number of groups written before it.
   */
  function PersonGroups(sections: seq<Json>): (r: Result<seq<Node>, Fault>)
    ensures r.Ok? ==> |r.value| <= |sections|
    decreases |sections|
  {
    if |sections| == 0 then Ok([])
    else
      var init := sections[..|sections| - 1];
      match PersonGroups(init)
      case Err(e) => Err(e)
      case Ok(groups) =>
        match GroupOf(sections[|sections| - 1], |groups| + 1)
        case Err(e) => Err(e)
        case Ok(group) => Ok(groups + group)
  }

  /** What one candidate group adds: its `PersonGroup` numbered `sequence`, when accepted. */
  function GroupOf(section: Json, sequence: int): (r: Result<seq<Node>, Fault>)
    ensures r.Ok? ==> |r.value| <= 1
  {
    match ValidateContactSection(section)
    case Err(e) => Err(e)
    case Ok(None) => Ok([])
    case Ok(Some((groupName, contacts))) =>
      match Members(contacts)
      case Err(e) => Err(e)
      case Ok(members) => Ok([PersonGroupElement(groupName, members, sequence)])
  }

  lemma GroupOfSucceeds(section: Json, sequence: int)
    ensures GroupOf(section, sequence).Ok? <==> SectionWellTyped(section)
  {
    match ValidateContactSection(section)
    case Ok(Some((_, contacts))) => MembersSucceed(contacts);
    case _ =>
  }

  /** The walk over the candidate groups succeeds exactly when every group is well typed. */
  lemma {:induction false} PersonGroupsSucceed(sections: seq<Json>)
    ensures PersonGroups(sections).Ok? <==> forall i :: 0 <= i < |sections| ==> SectionWellTyped(sections[i])
    decreases |sections|
  {
    if |sections| > 0 {
      var init := sections[..|sections| - 1];
      PersonGroupsSucceed(init);
      ForallSplitLast(sections, init, s => SectionWellTyped(s));
      if PersonGroups(init).Ok? {
        var last := sections[|sections| - 1];
        var n := |PersonGroups(init).value| + 1;
        GroupOfSucceeds(last, n);
        assert PersonGroups(sections).Ok? <==> GroupOf(last, n).Ok?;
      } else {
        assert PersonGroups(sections).Err?;
      }
    }
  }

  /** The groups of the first `i + 1` candidates extend those of the first `i` by the i-th candidate's. */
  lemma PersonGroupsNext(sections: seq<Json>, i: nat)
    requires i < |sections| && PersonGroups(sections[..i]).Ok?
    requires GroupOf(sections[i], |PersonGroups(sections[..i]).value| + 1).Ok?
    ensures PersonGroups(sections[..i + 1])
              == Ok(PersonGroups(sections[..i]).value + GroupOf(sections[i], |PersonGroups(sections[..i]).value| + 1).value)
  {
    var prefix := sections[..i + 1];
    assert |prefix| == i + 1 && prefix[|prefix| - 1] == sections[i];
    assert prefix[..|prefix| - 1] == sections[..i];
  }

  /** A candidate whose strings cannot be read ends the walk with its fault. */
  lemma PersonGroupsFaultAt(sections: seq<Json>, i: nat)
    requires i < |sections| && PersonGroups(sections[..i]).Ok?
    requires GroupOf(sections[i], |PersonGroups(sections[..i]).value| + 1).Err?
    ensures PersonGroups(sections) == Err(GroupOf(sections[i], |PersonGroups(sections[..i]).value| + 1).error)
  {
    var prefix := sections[..i + 1];
    assert |prefix| == i + 1 && prefix[|prefix| - 1] == sections[i];
    assert prefix[..|prefix| - 1] == sections[..i];
    assert PersonGroups(prefix).Err?;
    PersonGroupsFaultPersists(sections, i + 1);
  }

  /** Once a prefix of the candidates faults, the whole walk reports that fault. */
  lemma {:induction false} PersonGroupsFaultPersists(sections: seq<Json>, j: nat)
    requires j <= |sections| && PersonGroups(sections[..j]).Err?
    ensures PersonGroups(sections) == PersonGroups(sections[..j])
    decreases |sections|
  {
    if j == |sections| {
      assert sections[..j] == sections;
    } else {
      var init := sections[..|sections| - 1];
      assert init[..j] == sections[..j];
      PersonGroupsFaultPersists(init, j);
    }
  }

  /** The headers and contacts of the candidate groups that pass `ValidateContactSection`. */
  function AcceptedSections(sections: seq<Json>): seq<(string, seq<Json>)>
    decreases |sections|
  {
    if |sections| == 0 then []
    else
      var rest := AcceptedSections(sections[..|sections| - 1]);
      match ValidateContactSection(sections[|sections| - 1])
      case Ok(Some(group)) => rest + [group]
      case _ => rest
  }

  /**
   * The k-th group written (counting from 1) is the k-th accepted group: it
   * carries `sequence="k"`, its first child is `Name` with that group's
   * header, and the rest are that group's members.
   */
  lemma {:induction false} PersonGroupsNumbered(sections: seq<Json>)
    requires PersonGroups(sections).Ok?
    ensures NumberedAs(PersonGroups(sections).value, AcceptedSections(sections))
    decreases |sections|
  {
    if |sections| > 0 {
      var init := sections[..|sections| - 1];
      PersonGroupsNumbered(init);
      var groups := PersonGroups(init).value;
      var accepted := AcceptedSections(init);
      var last := sections[|sections| - 1];
      assert PersonGroups(sections) == Concat(Ok(groups), GroupOf(last, |groups| + 1));
      match ValidateContactSection(last)
      case Ok(None) =>
        assert GroupOf(last, |groups| + 1) == Ok([]);
        assert groups + [] == groups;
        assert AcceptedSections(sections) == accepted;
      case Ok(Some((groupName, contacts))) =>
        assert Members(contacts).Ok?;
        var group := PersonGroupElement(groupName, Members(contacts).value, |groups| + 1);
        assert GroupOf(last, |groups| + 1) == Ok([group]);
        assert PersonGroups(sections).value == groups + [group];
        assert AcceptedSections(sections) == accepted + [(groupName, contacts)];
        NumberedSnoc(groups, accepted, group, (groupName, contacts));
      case Err(_) =>
    }
  }

  /**
   * The groups `groups` are the accepted groups `accepted`, in order: the
   * k-th (counting from 1) carries `sequence="k"`, the k-th header and the
   * k-th group's members.
   */
  predicate NumberedAs(groups: seq<Node>, accepted: seq<(string, seq<Json>)>) {
    && |groups| == |accepted|
    && forall k :: 0 <= k < |groups| ==>
         && Members(accepted[k].1).Ok?
         && groups[k] == PersonGroupElement(accepted[k].0, Members(accepted[k].1).value, k + 1)
  }

  lemma NumberedSnoc(groups: seq<Node>, accepted: seq<(string, seq<Json>)>, group: Node, section: (string, seq<Json>))
    requires NumberedAs(groups, accepted)
    requires Members(section.1).Ok?
    requires group == PersonGroupElement(section.0, Members(section.1).value, |groups| + 1)
    ensures NumberedAs(groups + [group], accepted + [section])
  {
    var gs, ss := groups + [group], accepted + [section];
    forall k | 0 <= k < |gs|
      ensures Members(ss[k].1).Ok? && gs[k] == PersonGroupElement(ss[k].0, Members(ss[k].1).value, k + 1)
    {
      if k < |groups| {
        assert gs[k] == groups[k] && ss[k] == accepted[k];
      }
    }
  }

  /** Every header written is non-blank, and every group's number is its position. */
  lemma PersonGroupsHeaders(sections: seq<Json>)
    requires PersonGroups(sections).Ok?
    ensures var groups := PersonGroups(sections).value;
      && |groups| == |AcceptedSections(sections)|
      && forall k :: 0 <= k < |groups| ==>
        && groups[k].Element? && groups[k].name == "PersonGroup"
        && groups[k].attributes == [("sequence", NatToString(k + 1))]
        && |groups[k].children| > 0
        && groups[k].children[0] == TextElement("Name", AcceptedSections(sections)[k].0)
        && !IsNullOrWhiteSpace(AcceptedSections(sections)[k].0)
  {
    PersonGroupsNumbered(sections);
    AcceptedSectionsHeaders(sections);
  }

  lemma {:induction false} AcceptedSectionsHeaders(sections: seq<Json>)
    ensures forall k :: 0 <= k < |AcceptedSections(sections)| ==> !IsNullOrWhiteSpace(AcceptedSections(sections)[k].0)
    decreases |sections|
  {
    if |sections| > 0 {
      AcceptedSectionsHeaders(sections[..|sections| - 1]);
    }
  }

  // ---- the root ----

  predicate CountryIdsWellTyped(root: Json) {
    match PropertyOrDefault(root, "CountryIds")
    case Some(JArray(items)) => forall i :: 0 <= i < |items| ==> items[i].JString? || items[i].JNull?
    case _ => true
  }

  /** Every string the builder reads from the document is absent, null or a string. */
  predicate WellTyped(root: Json) {
    && StringOrAbsent(root, "Title")
    && CountryIdsWellTyped(root)
    && StringOrAbsent(root, "PublishDate")
    && forall i :: 0 <= i < |ExtractContactSections(root)| ==> SectionWellTyped(ExtractContactSections(root)[i])
  }

  /** The four children of the root, each read in turn, the first fault winning. */
  function RootChildren(root: Json): (r: Result<seq<Node>, Fault>)
    ensures r.Ok? ==> (Tags(r.value) ==
                       (if OptionalStringElement(root, "Title", "Title") != Ok([]) then ["Title"] else [])
                       + ["Countries"]
                       + (if OptionalStringElement(root, "PublishDate", "PublishedDate") != Ok([]) then ["PublishedDate"] else [])
                       + ["ContactInformation"])
  {
    match OptionalStringElement(root, "Title", "Title")
    case Err(e) => Err(e)
    case Ok(title) =>
      match ExtractCountryList(root)
      case Err(e) => Err(e)
      case Ok(countries) =>
        match OptionalStringElement(root, "PublishDate", "PublishedDate")
        case Err(e) => Err(e)
        case Ok(publishedDate) =>
          match PersonGroups(ExtractContactSections(root))
          case Err(e) => Err(e)
          case Ok(groups) =>
            var countriesElement := [CountriesElement(countries)];
            var contactInformation := [Element("ContactInformation", [], groups)];
            TagsAppend(title, countriesElement);
            TagsAppend(title + countriesElement, publishedDate);
            TagsAppend(title + countriesElement + publishedDate, contactInformation);
            Ok(title + countriesElement + publishedDate + contactInformation)
  }

  /**
   * `WriteRootElement`: the element named by the options holding, in order,
   * an optional `Title`, `Countries`, an optional `PublishedDate` and
   * `ContactInformation`.
   */
  function RootElement(opts: XmlConversionOptions, root: Json): (r: Result<Node, Fault>)
    ensures r.Ok? ==> r.value.Element? && r.value.name == opts.rootElementName && r.value.attributes == []
    ensures r.Ok? ==> (ChildTags(r.value) ==
                       (if OptionalStringElement(root, "Title", "Title") != Ok([]) then ["Title"] else [])
                       + ["Countries"]
                       + (if OptionalStringElement(root, "PublishDate", "PublishedDate") != Ok([]) then ["PublishedDate"] else [])
                       + ["ContactInformation"])
  {
    match RootChildren(root)
    case Err(e) => Err(e)
    case Ok(children) => Ok(Element(opts.rootElementName, [], children))
  }

  /** The root assembled from what each of its four writers produces. */
  lemma RootElementOf(opts: XmlConversionOptions, root: Json, title: seq<Node>, countries: seq<string>,
                      publishedDate: seq<Node>, groups: seq<Node>)
    requires OptionalStringElement(root, "Title", "Title") == Ok(title)
    requires ExtractCountryList(root) == Ok(countries)
    requires OptionalStringElement(root, "PublishDate", "PublishedDate") == Ok(publishedDate)
    requires PersonGroups(ExtractContactSections(root)) == Ok(groups)
    ensures RootElement(opts, root) == Ok(Element(opts.rootElementName, [],
              title + [CountriesElement(countries)] + publishedDate + [Element("ContactInformation", [], groups)]))
  {
  }

  /** The builder fails exactly when some string it reads is neither a string nor null. */
  lemma RootElementSucceeds(opts: XmlConversionOptions, root: Json)
    ensures RootElement(opts, root).Ok? <==> WellTyped(root)
  {
    PersonGroupsSucceed(ExtractContactSections(root));
    if WellTyped(root) {
      match PropertyOrDefault(root, "CountryIds")
      case Some(JArray(items)) =>
      case _ =>
    }
  }

  // ---- the document of the builder's nested-structure test ----

  const MikeContact: Json := JObject([
    ("FirstName", JString("Mike")), ("LastName", JString("Johnsen")),
    ("Email", JString("mike.johnsen@example.com")), ("PhoneNumber", JString("1-646-731-2332"))])

  const MediaContactGroup: Json := JObject([
    ("ContactHeader", JString("Media Contact")), ("Contacts", JArray([MikeContact]))])

  const NestedDocument: Json := JObject([
    ("Id", JString("TCnWpDVD")), ("Status", JNumber(3)),
    ("PublishDate", JString("2024-08-26T18:19:59Z")), ("TestRun", JBool(false)),
    ("CountryIds", JArray([JString("US"), JString("CA"), JString("MX")])),
    ("Title", JString("Test Report")),
    ("ReportMetadata", JObject([
      ("ContactSection", JArray([JObject([("ContactInformation", JArray([MediaContactGroup]))])]))]))])

  /** The person read from the test's one contact: no `Title`, so no job title. */
  lemma MikeContactPerson()
    ensures ExtractPersonData(MikeContact) == Ok(Mike)
  {
  }

  /** Names without white space at either end are displayed as they are, joined by a space. */
  lemma DisplayNameOfTrimmedNames(p: PersonData)
    requires |p.firstName| > 0 && !IsWhiteSpace(p.firstName[0]) && !IsWhiteSpace(p.firstName[|p.firstName| - 1])
    requires |p.lastName| > 0 && !IsWhiteSpace(p.lastName[0]) && !IsWhiteSpace(p.lastName[|p.lastName| - 1])
    ensures p.DisplayName() == p.firstName + " " + p.lastName
  {
    TrimUnchanged(p.firstName);
    TrimUnchanged(p.lastName);
  }

  lemma MikeDisplayName()
    ensures Mike.DisplayName() == "Mike Johnsen"
  {
    DisplayNameOfTrimmedNames(Mike);
    assert "Mike" + " " + "Johnsen" == "Mike Johnsen";
  }

  /** A person with both names and a phone number but no job title. */
  lemma PersonWithoutJobTitle(p: PersonData)
    requires !IsNullOrWhiteSpace(p.lastName) && !IsNullOrWhiteSpace(p.firstName)
    requires IsNullOrWhiteSpace(p.jobTitle) && !IsNullOrWhiteSpace(p.phoneNumber)
    ensures PersonElement(p) ==
      Element("Person", [],
        [TextElement("FamilyName", p.lastName)] + [TextElement("GivenName", p.firstName)]
        + [TextElement("DisplayName", p.DisplayName())]
        + [Element("ContactInfo", [], [Element("Phone", [], [TextElement("Number", p.phoneNumber)])])])
  {
    var names := PersonNameNodes(p);
    assert names == [TextElement("FamilyName", p.lastName)] + [TextElement("GivenName", p.firstName)]
                    + [TextElement("DisplayName", p.DisplayName())];
    assert JobTitleNodes(p.jobTitle) == [];
    assert names + [] == names;
  }

  const Mike: PersonData := PersonData("Mike", "Johnsen", "", "1-646-731-2332")

  /** The `Person` of the test: names, display name and phone, no job title. */
  lemma MikePersonElement()
    ensures PersonElement(Mike) ==
      Element("Person", [],
        [TextElement("FamilyName", "Johnsen")] + [TextElement("GivenName", "Mike")]
        + [TextElement("DisplayName", "Mike Johnsen")]
        + [Element("ContactInfo", [], [Element("Phone", [], [TextElement("Number", "1-646-731-2332")])])])
  {
    var p := Mike;
    assert p.lastName == "Johnsen" && p.firstName == "Mike" && p.jobTitle == "";
    assert p.phoneNumber == "1-646-731-2332";
    NotBlank(p.lastName);
    NotBlank(p.firstName);
    NotBlank(p.phoneNumber);
    PersonWithoutJobTitle(p);
    MikeDisplayName();
  }

  lemma MediaContactGroupFields()
    ensures PropertyOrDefault(MediaContactGroup, "ContactHeader") == Some(JString("Media Contact"))
    ensures PropertyOrDefault(MediaContactGroup, "Contacts") == Some(JArray([MikeContact]))
  {
    DistinctNamesLookup(MediaContactGroup.members, "Contacts", 1);
  }

  /** A single contact contributes exactly its own member. */
  lemma MembersSingle(c: Json)
    ensures Members([c]) == MemberOf(c)
  {
    assert [c][..0] == [];
    if MemberOf(c).Ok? {
      assert [] + MemberOf(c).value == MemberOf(c).value;
    }
  }

  /** A single candidate group is numbered 1. */
  lemma PersonGroupsSingle(section: Json)
    ensures PersonGroups([section]) == GroupOf(section, 1)
  {
    assert [section][..0] == [];
    if GroupOf(section, 1).Ok? {
      assert [] + GroupOf(section, 1).value == GroupOf(section, 1).value;
    }
  }

  /** The test's one group: its header, and one member for its one contact. */
  lemma MediaContactGroupWritten()
    ensures GroupOf(MediaContactGroup, 1) == Ok([PersonGroupElement("Media Contact", [PersonGroupMemberElement(Mike)], 1)])
  {
    MediaContactGroupFields();
    NotBlank("Media Contact");
    assert ExtractStringProperty(MediaContactGroup, "ContactHeader") == Ok("Media Contact");
    assert ValidateContactSection(MediaContactGroup) == Ok(Some(("Media Contact", [MikeContact])));
    MikeContactPerson();
    NotBlank(Mike.firstName);
    MembersSingle(MikeContact);
    assert MemberOf(MikeContact) == Ok([PersonGroupMemberElement(Mike)]);
  }

  const NestedSection: Json := JObject([("ContactInformation", JArray([MediaContactGroup]))])

  /** The fields of the test document that the builder reads. */
  lemma NestedDocumentFields()
    ensures PropertyOrDefault(NestedDocument, "Title") == Some(JString("Test Report"))
    ensures PropertyOrDefault(NestedDocument, "CountryIds") == Some(JArray([JString("US"), JString("CA"), JString("MX")]))
    ensures PropertyOrDefault(NestedDocument, "PublishDate") == Some(JString("2024-08-26T18:19:59Z"))
    ensures PropertyOrDefault(NestedDocument, "ReportMetadata") == Some(JObject([("ContactSection", JArray([NestedSection]))]))
  {
    var m := NestedDocument.members;
    DistinctNamesLookup(m, "Title", 5);
    DistinctNamesLookup(m, "CountryIds", 4);
    DistinctNamesLookup(m, "PublishDate", 2);
    DistinctNamesLookup(m, "ReportMetadata", 6);
  }

  /** The test document's only candidate group is the media contact group. */
  lemma NestedContactSections()
    ensures ExtractContactSections(NestedDocument) == [MediaContactGroup]
  {
    NestedDocumentFields();
    var metadata := JObject([("ContactSection", JArray([NestedSection]))]);
    assert PropertyOrDefault(metadata, "ContactSection") == Some(JArray([NestedSection]));
    assert ContactInformationItems(NestedSection) == [MediaContactGroup];
    assert FlattenContactInformation([NestedSection]) == [MediaContactGroup] by {
      assert [NestedSection][1..] == [];
      assert [MediaContactGroup] + [] == [MediaContactGroup];
    }
  }

  lemma NestedPersonGroups()
    ensures PersonGroups([MediaContactGroup]) == Ok([PersonGroupElement("Media Contact", [PersonGroupMemberElement(Mike)], 1)])
  {
    PersonGroupsSingle(MediaContactGroup);
    MediaContactGroupWritten();
  }

  lemma NestedCountries()
    ensures ExtractCountryList(NestedDocument) == Ok(["US", "CA", "MX"])
  {
    NestedDocumentFields();
    NotBlank("US");
    NotBlank("CA");
    NotBlank("MX");
    assert [JString("US"), JString("CA"), JString("MX")] == StringItems(["US", "CA", "MX"]);
    NonBlankCountriesKept(["US", "CA", "MX"]);
  }

  /**
   * The nested-structure test: the title, the three countries, the date and
   * one group numbered 1 holding Mike Johnsen, under the configured root name.
   */
  lemma NestedDocumentWritten(opts: XmlConversionOptions)
    ensures RootElement(opts, NestedDocument) == Ok(Element(opts.rootElementName, [],
              [TextElement("Title", "Test Report")]
              + [CountriesElement(["US", "CA", "MX"])]
              + [TextElement("PublishedDate", "2024-08-26T18:19:59Z")]
              + [Element("ContactInformation", [], [PersonGroupElement("Media Contact", [PersonGroupMemberElement(Mike)], 1)])]))
  {
    NestedTitleAndDate();
    NestedCountries();
    NestedContactSections();
    NestedPersonGroups();
    RootElementOf(opts, NestedDocument, [TextElement("Title", "Test Report")], ["US", "CA", "MX"],
                  [TextElement("PublishedDate", "2024-08-26T18:19:59Z")],
                  [PersonGroupElement("Media Contact", [PersonGroupMemberElement(Mike)], 1)]);
  }

  lemma NestedTitleAndDate()
    ensures OptionalStringElement(NestedDocument, "Title", "Title") == Ok([TextElement("Title", "Test Report")])
    ensures OptionalStringElement(NestedDocument, "PublishDate", "PublishedDate")
              == Ok([TextElement("PublishedDate", "2024-08-26T18:19:59Z")])
  {
    NestedDocumentFields();
  }

  /** The fragments the test looks for: the countries' text and the group's number. */
  lemma NestedDocumentFragments()
    ensures CountriesElement(["US", "CA", "MX"]).children == [Text("US, CA, MX")]
    ensures PersonGroupElement("Media Contact", [PersonGroupMemberElement(Mike)], 1).attributes == [("sequence", "1")]
    ensures PersonGroupElement("Media Contact", [PersonGroupMemberElement(Mike)], 1).children[0] == TextElement("Name", "Media Contact")
  {
    assert Join(["US", "CA", "MX"], ", ") == "US" + ", " + Join(["CA", "MX"], ", ");
    assert Join(["CA", "MX"], ", ") == "CA" + ", " + "MX";
    assert "US" + ", " + ("CA" + ", " + "MX") == "US, CA, MX";
  }

  // ---- the document of the builder's basic-conversion test ----

  const TitledDocument: Json := JObject([
    ("Status", JNumber(3)), ("PublishDate", JString("2024-08-26T18:19:59Z")),
    ("TestRun", JBool(false)), ("Title", JString("Test Document"))])

  /**
   * The basic-conversion test: the title and the date; `Countries` and
   * `ContactInformation` are written empty.
   */
  lemma TitledDocumentWritten(opts: XmlConversionOptions)
    ensures RootElement(opts, TitledDocument) == Ok(Element(opts.rootElementName, [],
              [TextElement("Title", "Test Document")]
              + [Element("Countries", [], [])]
              + [TextElement("PublishedDate", "2024-08-26T18:19:59Z")]
              + [Element("ContactInformation", [], [])]))
  {
    var m := TitledDocument.members;
    DistinctNamesLookup(m, "Title", 3);
    DistinctNamesLookup(m, "PublishDate", 1);
    FirstMatchNone(m, "CountryIds");
    FirstMatchNone(m, "ReportMetadata");
    assert ExtractContactSections(TitledDocument) == [];
    RootElementOf(opts, TitledDocument, [TextElement("Title", "Test Document")], [],
                  [TextElement("PublishedDate", "2024-08-26T18:19:59Z")], []);
  }
}
