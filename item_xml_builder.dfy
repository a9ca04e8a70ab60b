/**
 * `PublishedItemXmlBuilder`'s writing methods, over the `XmlWriter` model:
 * each method makes the writer calls the source makes, in the same order,
 * and is proved to append exactly the events of the element tree that
 * `PublishedItemXml` defines for it.  A fault (a `GetString()` on a value
 * that is neither a string nor null) stops the method at the point where the
 * source throws; `BuildXml` then discards the half-written output and
 * reports the wrapped message.
 */
module PublishedItemXmlBuilder {
  import opened Wrappers
  import opened Text
  import opened JsonModel
  import opened Xml
  import opened PublishedItemXml

  /** JSON field names, mapped to the element names written for them. */
  const JsonToXmlMapping: map<string, string> := map[
    "Title" := "Title",
    "CountryIds" := "Countries",
    "PublishDate" := "PublishedDate",
    "ReportMetadata" := "ReportMetadata",
    "ContactSection" := "ContactSection",
    "ContactInformation" := "ContactInformation",
    "ContactHeader" := "Name",
    "Contacts" := "Contacts",
    "FirstName" := "GivenName",
    "LastName" := "FamilyName",
    "PhoneNumber" := "Number"]

  /** Element names without a JSON counterpart. */
  const XmlElements: map<string, string> := map[
    "JobTitle" := "JobTitle",
    "PersonGroup" := "PersonGroup",
    "PersonGroupMember" := "PersonGroupMember",
    "Person" := "Person",
    "DisplayName" := "DisplayName",
    "ContactInfo" := "ContactInfo",
    "Phone" := "Phone",
    "ContactInformation" := "ContactInformation"]

  const BuildXmlFailurePrefix: string := "Failed to build XML from JSON: "

  method WriteTitle(writer: XmlWriter, root: Json) returns (fault: Option<Fault>)
    modifies writer
    ensures fault == ErrorOf(OptionalStringElement(root, "Title", "Title"))
    ensures fault.None? ==>
              writer.events == old(writer.events) + ChildrenEvents(OptionalStringElement(root, "Title", "Title").value)
    ensures writer.open == old(writer.open)
  {
    var title := ExtractStringProperty(root, "Title");
    if title.Err? {
      return Some(title.error);
    }
    if IsNullOrEmpty(title.value) {
      return None;
    }
    writer.WriteElementString(JsonToXmlMapping["Title"], title.value);
    ChildrenEventsSingle(TextElement("Title", title.value));
    return None;
  }

  method WriteCountries(writer: XmlWriter, root: Json) returns (fault: Option<Fault>)
    modifies writer
    ensures fault == ErrorOf(ExtractCountryList(root))
    ensures fault.None? ==>
              && writer.events == old(writer.events) + Events(CountriesElement(ExtractCountryList(root).value))
              && writer.open == old(writer.open)
  {
    writer.WriteStartElement(JsonToXmlMapping["CountryIds"]);
    var countries := ExtractCountryList(root);
    if countries.Err? {
      return Some(countries.error);
    }
    if |countries.value| > 0 {
      writer.WriteString(Join(countries.value, ", "));
      ChildrenEventsSingle(Text(Join(countries.value, ", ")));
    }
    writer.WriteEndElement();
    return None;
  }

  method WritePublishedDate(writer: XmlWriter, root: Json) returns (fault: Option<Fault>)
    modifies writer
    ensures fault == ErrorOf(OptionalStringElement(root, "PublishDate", "PublishedDate"))
    ensures fault.None? ==>
              writer.events == old(writer.events)
                               + ChildrenEvents(OptionalStringElement(root, "PublishDate", "PublishedDate").value)
    ensures writer.open == old(writer.open)
  {
    var publishDate := ExtractStringProperty(root, "PublishDate");
    if publishDate.Err? {
      return Some(publishDate.error);
    }
    if IsNullOrEmpty(publishDate.value) {
      return None;
    }
    writer.WriteElementString(JsonToXmlMapping["PublishDate"], publishDate.value);
    ChildrenEventsSingle(TextElement("PublishedDate", publishDate.value));
    return None;
  }

  /** `WriteElementString` for a non-blank text, nothing otherwise. */
  method WriteOptionalTextElement(writer: XmlWriter, tag: string, text: string)
    modifies writer
    ensures writer.events == old(writer.events) + ChildrenEvents(OptionalTextElement(tag, text))
    ensures writer.open == old(writer.open)
  {
    if !IsNullOrWhiteSpace(text) {
      writer.WriteElementString(tag, text);
      ChildrenEventsSingle(TextElement(tag, text));
    }
  }

  method WritePersonName(writer: XmlWriter, person: PersonData)
    modifies writer
    ensures writer.events == old(writer.events) + ChildrenEvents(PersonNameNodes(person))
    ensures writer.open == old(writer.open)
  {
    WriteOptionalTextElement(writer, JsonToXmlMapping["LastName"], person.lastName);
    WriteOptionalTextElement(writer, JsonToXmlMapping["FirstName"], person.firstName);
    var displayName := person.DisplayName();
    WriteOptionalTextElement(writer, XmlElements["DisplayName"], displayName);
    ChildrenEventsConcat3(old(writer.events), OptionalTextElement("FamilyName", person.lastName),
                          OptionalTextElement("GivenName", person.firstName), OptionalTextElement("DisplayName", displayName));
  }

  method WritePersonJobTitle(writer: XmlWriter, jobTitle: string)
    modifies writer
    ensures writer.events == old(writer.events) + ChildrenEvents(JobTitleNodes(jobTitle))
    ensures writer.open == old(writer.open)
  {
    WriteOptionalTextElement(writer, XmlElements["JobTitle"], jobTitle);
  }

  method WritePersonContactInfo(writer: XmlWriter, phoneNumber: string)
    modifies writer
    ensures writer.events == old(writer.events) + ChildrenEvents(ContactInfoNodes(phoneNumber))
    ensures writer.open == old(writer.open)
  {
    if IsNullOrWhiteSpace(phoneNumber) {
      return;
    }
    writer.WriteStartElement(XmlElements["ContactInfo"]);
    ghost var contactStart := writer.events;
    NoAttributes(contactStart);
    writer.WriteStartElement(XmlElements["Phone"]);
    ghost var phoneStart := writer.events;
    NoAttributes(phoneStart);
    writer.WriteElementString(JsonToXmlMapping["PhoneNumber"], phoneNumber);
    ghost var number := TextElement("Number", phoneNumber);
    ChildrenEventsSingle(number);
    ghost var phoneInside := writer.events;
    writer.WriteEndElement();
    ghost var phone := Element("Phone", [], [number]);
    ElementWritten(contactStart, "Phone", [], [number], phoneStart, phoneInside, writer.events);
    ChildrenEventsSingle(phone);
    ghost var contactInside := writer.events;
    writer.WriteEndElement();
    ElementWritten(old(writer.events), "ContactInfo", [], [phone], contactStart, contactInside, writer.events);
    ChildrenEventsSingle(Element("ContactInfo", [], [phone]));
  }

  /**
   * The `Person` element that `WritePersonGroupMember` writes inside the
   * member: its name, job title and contact details, in that order.
   */
  method WritePersonElement(writer: XmlWriter, person: PersonData)
    modifies writer
    ensures writer.events == old(writer.events) + Events(PersonElement(person))
    ensures writer.open == old(writer.open)
  {
    writer.WriteStartElement(XmlElements["Person"]);
    ghost var start := writer.events;
    NoAttributes(start);
    assert start == old(writer.events) + [StartElement("Person")] + AttributeEvents([]);
    WritePersonName(writer, person);
    WritePersonJobTitle(writer, person.jobTitle);
    WritePersonContactInfo(writer, person.phoneNumber);
    ChildrenEventsConcat3(start, PersonNameNodes(person), JobTitleNodes(person.jobTitle), ContactInfoNodes(person.phoneNumber));
    ghost var inner := writer.events;
    writer.WriteEndElement();
    ElementWritten(old(writer.events), "Person", [],
                   PersonNameNodes(person) + JobTitleNodes(person.jobTitle) + ContactInfoNodes(person.phoneNumber),
                   start, inner, writer.events);
  }

  method WritePersonGroupMember(writer: XmlWriter, person: PersonData)
    modifies writer
    ensures writer.events == old(writer.events) + Events(PersonGroupMemberElement(person))
    ensures writer.open == old(writer.open)
  {
    writer.WriteStartElement(XmlElements["PersonGroupMember"]);
    ghost var start := writer.events;
    NoAttributes(start);
    assert start == old(writer.events) + [StartElement("PersonGroupMember")] + AttributeEvents([]);
    assert writer.open == old(writer.open) + ["PersonGroupMember"];
    WritePersonElement(writer, person);
    ghost var inner := writer.events;
    ChildrenEventsSingle(PersonElement(person));
    assert inner == start + ChildrenEvents([PersonElement(person)]);
    writer.WriteEndElement();
    ElementWritten(old(writer.events), "PersonGroupMember", [], [PersonElement(person)], start, inner, writer.events);
  }

  /**
   * The `sequence` attribute and the `Name` element, then one member for
   * each valid person among `contacts`, in order.
   */
  method WritePersonGroup(writer: XmlWriter, groupName: string, contacts: seq<Json>, sequence: int)
    returns (fault: Option<Fault>)
    modifies writer
    ensures fault == ErrorOf(Members(contacts))
    ensures fault.None? ==>
              && writer.events == old(writer.events) + Events(PersonGroupElement(groupName, Members(contacts).value, sequence))
              && writer.open == old(writer.open)
  {
    writer.WriteStartElement(XmlElements["PersonGroup"]);
    writer.WriteAttributeString("sequence", IntToString(sequence));
    writer.WriteElementString(JsonToXmlMapping["ContactHeader"], groupName);
    ghost var header := writer.events;
    assert contacts[..0] == [];
    for i := 0 to |contacts|
      invariant Members(contacts[..i]).Ok?
      invariant writer.events == header + ChildrenEvents(Members(contacts[..i]).value)
      invariant writer.open == old(writer.open) + ["PersonGroup"]
    {
      var person := ExtractPersonData(contacts[i]);
      if person.Err? {
        MembersFaultAt(contacts, i);
        return Some(person.error);
      }
      MembersNext(contacts, i);
      ghost var before := Members(contacts[..i]).value;
      if person.value.IsValid() {
        WritePersonGroupMember(writer, person.value);
        ChildrenEventsSnoc(header, before, PersonGroupMemberElement(person.value));
      } else {
        assert before + [] == before;
      }
    }
    assert contacts[..|contacts|] == contacts;
    ghost var inside := writer.events;
    writer.WriteEndElement();
    GroupWritten(old(writer.events), groupName, Members(contacts).value, sequence, header, inside, writer.events);
    return None;
  }

  /** The pieces `WritePersonGroup` writes make up one `PersonGroup` element. */
  lemma GroupWritten(before: seq<XmlEvent>, groupName: string, members: seq<Node>, sequence: int,
                     header: seq<XmlEvent>, inside: seq<XmlEvent>, after: seq<XmlEvent>)
    requires header == before + [StartElement("PersonGroup")] + [Attribute("sequence", IntToString(sequence))]
                       + Events(ElementString("Name", groupName))
    requires inside == header + ChildrenEvents(members)
    requires after == inside + [EndElement]
    ensures after == before + Events(PersonGroupElement(groupName, members, sequence))
  {
    var attrs := [("sequence", IntToString(sequence))];
    var start := before + [StartElement("PersonGroup")] + AttributeEvents(attrs);
    assert AttributeEvents(attrs) == [Attribute("sequence", IntToString(sequence))];
    ChildrenEventsCons(ElementString("Name", groupName), members);
    assert inside == start + ChildrenEvents([ElementString("Name", groupName)] + members);
    ElementWritten(before, "PersonGroup", attrs, [ElementString("Name", groupName)] + members, start, inside, after);
  }

  /**
   * One `PersonGroup` for each accepted group, numbered by a counter that
   * advances only when a group is written.
   */
  method WriteContactInformation(writer: XmlWriter, root: Json) returns (fault: Option<Fault>)
    modifies writer
    ensures fault == ErrorOf(PersonGroups(ExtractContactSections(root)))
    ensures fault.None? ==>
              && writer.events == old(writer.events)
                                  + Events(Element("ContactInformation", [], PersonGroups(ExtractContactSections(root)).value))
              && writer.open == old(writer.open)
  {
    writer.WriteStartElement(XmlElements["ContactInformation"]);
    var contactSections := ExtractContactSections(root);
    var personGroupSequence := 1;
    ghost var start := writer.events;
    NoAttributes(start);
    for i := 0 to |contactSections|
      invariant PersonGroups(contactSections[..i]).Ok?
      invariant personGroupSequence == |PersonGroups(contactSections[..i]).value| + 1
      invariant writer.events == start + ChildrenEvents(PersonGroups(contactSections[..i]).value)
      invariant writer.open == old(writer.open) + ["ContactInformation"]
    {
      ghost var before := PersonGroups(contactSections[..i]).value;
      var validation := ValidateContactSection(contactSections[i]);
      if validation.Err? {
        assert GroupOf(contactSections[i], personGroupSequence) == Err(validation.error);
        PersonGroupsFaultAt(contactSections, i);
        return Some(validation.error);
      }
      if validation.value.Some? {
        var (groupName, contacts) := validation.value.value;
        var groupFault := WritePersonGroup(writer, groupName, contacts, personGroupSequence);
        if groupFault.Some? {
          assert GroupOf(contactSections[i], personGroupSequence) == Err(groupFault.value);
          PersonGroupsFaultAt(contactSections, i);
          return groupFault;
        }
        ghost var group := PersonGroupElement(groupName, Members(contacts).value, personGroupSequence);
        assert GroupOf(contactSections[i], personGroupSequence) == Ok([group]);
        PersonGroupsNext(contactSections, i);
        ChildrenEventsSnoc(start, before, group);
        personGroupSequence := personGroupSequence + 1;
      } else {
        assert GroupOf(contactSections[i], personGroupSequence) == Ok([]);
        PersonGroupsNext(contactSections, i);
        assert before + [] == before;
      }
    }
    assert contactSections[..|contactSections|] == contactSections;
    ghost var inside := writer.events;
    writer.WriteEndElement();
    ElementWritten(old(writer.events), "ContactInformation", [], PersonGroups(contactSections).value,
                   start, inside, writer.events);
    return None;
  }

  /** `WriteRootElement`: the root element around its four children. */
  method WriteRootElement(writer: XmlWriter, options: XmlConversionOptions, root: Json) returns (fault: Option<Fault>)
    modifies writer
    ensures fault == ErrorOf(RootElement(options, root))
    ensures fault.None? ==>
              && writer.events == old(writer.events) + Events(RootElement(options, root).value)
              && writer.open == old(writer.open)
  {
    writer.WriteStartElement(options.rootElementName);
    fault := WriteTitle(writer, root);
    if fault.Some? {
      return;
    }
    fault := WriteCountries(writer, root);
    if fault.Some? {
      return;
    }
    fault := WritePublishedDate(writer, root);
    if fault.Some? {
      return;
    }
    fault := WriteContactInformation(writer, root);
    if fault.Some? {
      return;
    }
    ghost var inside := writer.events;
    writer.WriteEndElement();
    RootWritten(old(writer.events), options.rootElementName,
                OptionalStringElement(root, "Title", "Title").value,
                CountriesElement(ExtractCountryList(root).value),
                OptionalStringElement(root, "PublishDate", "PublishedDate").value,
                Element("ContactInformation", [], PersonGroups(ExtractContactSections(root)).value),
                inside, writer.events);
  }

  /** The pieces `WriteRootElement` writes make up the root element. */
  lemma RootWritten(before: seq<XmlEvent>, name: string, title: seq<Node>, countries: Node,
                    publishedDate: seq<Node>, contactInformation: Node, inside: seq<XmlEvent>, after: seq<XmlEvent>)
    requires inside == before + [StartElement(name)] + ChildrenEvents(title) + Events(countries)
                       + ChildrenEvents(publishedDate) + Events(contactInformation)
    requires after == inside + [EndElement]
    ensures after == before + Events(Element(name, [], title + [countries] + publishedDate + [contactInformation]))
  {
    var start := before + [StartElement(name)];
    var upToCountries := title + [countries];
    var upToDate := upToCountries + publishedDate;
    ChildrenEventsSnoc(start, title, countries);
    ChildrenEventsConcat(start, upToCountries, publishedDate);
    ChildrenEventsSnoc(start, upToDate, contactInformation);
    NoAttributes(start);
    ElementWritten(before, name, [], upToDate + [contactInformation], start, inside, after);
  }

  /**
   * `BuildXml`: the events of the whole document, or the fault's message
   * wrapped the way the `InvalidOperationException` it throws wraps it.
   */
  method BuildXml(options: XmlConversionOptions, root: Json) returns (r: Result<seq<XmlEvent>, string>)
    ensures r.Ok? <==> WellTyped(root)
    ensures r.Ok? ==> RootElement(options, root).Ok? && r.value == Events(RootElement(options, root).value)
    ensures r.Ok? ==> Document(r.value) == Some(RootElement(options, root).value)
    ensures r.Err? ==> RootElement(options, root).Err?
                       && r.error == BuildXmlFailurePrefix + FaultMessage(RootElement(options, root).error)
  {
    var writer := new XmlWriter();
    var fault := WriteRootElement(writer, options, root);
    RootElementSucceeds(options, root);
    if fault.Some? {
      return Err(BuildXmlFailurePrefix + FaultMessage(fault.value));
    }
    DocumentOfEvents(RootElement(options, root).value);
    return Ok(writer.events);
  }
}
