# Published-item JSON to XML conversion: a Dafny model

This project models the core of a small service. The service accepts a JSON
"published item" document and checks it against three business rules. It then
turns the document into an XML file with a fixed layout. The model covers:

- `ValidationService.Validate` and its three rules, checked in a fixed order,
  first failure wins:
  - `Status` is a number equal to the configured value (3 by default);
  - `PublishDate` is a parseable date on or after the configured minimum
    (2024-08-24 UTC by default);
  - `TestRun` is `false`.
- `PublishedItemXmlBuilder.BuildXml` and all of its writers:
  - the root element, holding `Title`, `Countries`, `PublishedDate` and
    `ContactInformation`;
  - `ContactInformation`, holding numbered `PersonGroup`s;
  - `PersonGroupMember/Person`, holding family name, given name, display name,
    job title and phone number.
  - A field that is neither a string nor null makes `GetString()` throw. The
    model carries this as a `Fault`, and `BuildXml` wraps it in its
    "Failed to build XML from JSON: " message.
- `PersonData.IsValid` and `GetDisplayName`, `ParseEncoding`, and the
  `GetPropertyOrDefault` extension used to read every field.
- The web front end's `validateFile`, which checks presence, then the
  extension, then the size. Also its `generateXmlFileName`, which turns a
  trailing `.json`, matched case-insensitively, into `.xml`.

Modules, one per file:

- `Wrappers` (wrappers.dfy): `Option`, `Result`.
- `Text` (text.dfy): .NET's white-space set, `IsNullOrWhiteSpace` and
  `Trim`, integer formatting with its decimal round trip, ASCII lower-casing,
  `string.Join`, and a split whose round trip with `Join` is proved.
- `JsonModel` (json.dfy): the JSON value, and `GetPropertyOrDefault` as a loop
  proved equal to a first-match function.
- `DateTimes` (datetime.dfy): `DateTime` as calendar fields, ticks since
  0001-01-01, the proof that tick order is calendar order, and `MM/dd/yyyy`.
- `Validation` (validation.dfy): the validator.
- `Xml` (xml.dfy): an element tree and the events an `XmlWriter` is given:
  - the `XmlWriter` is a class whose methods append events;
  - every tree is recovered from its events by a parser, so the written
    stream is a well-formed document;
  - the textual serialisation after that is left out (see below).
- `PublishedItemXml` (item_xml.dfy): the tree the builder writes for a
  document, as functions. It holds the lemmas about groups, numbering,
  persons and faults, and the documents used by the repository's tests.
- `PublishedItemXmlBuilder` (item_xml_builder.dfy): the imperative writers
  over an `XmlWriter`. Each is proved to append exactly the events of its
  part of the tree.
- `FileUtils` (file_utils.dfy): `validateFile` and `generateXmlFileName`.

## Model

| member | source | states |
|---|---|---|
| `JsonModel.PropertyOrDefault` | Ubiminds.Data/Extensions/JsonElementExtensions.cs:9-12 | a non-object element has no property (`default`, modelled as `None`) |
| `JsonModel.GetPropertyOrDefault` | Ubiminds.Data/Extensions/JsonElementExtensions.cs:7-23 | the `foreach` scan returns the first member with exactly that name, `None` for a non-object or a missing name |
| `JsonModel.FirstMatchNone` | Ubiminds.Data/Extensions/JsonElementExtensions.cs:14-22 | the scan finds nothing exactly when no member carries the name |
| `JsonModel.FirstMatchIsFirst` | Ubiminds.Data/Extensions/JsonElementExtensions.cs:14-19 | the scan returns the value of the earliest member with the name |
| `JsonModel.FirstMatchIgnoresLater` | Ubiminds.Data/Extensions/JsonElementExtensions.cs:14-19 | members after the first match never change the result |
| `JsonModel.DistinctNamesLookup` | Ubiminds.Data/Extensions/JsonElementExtensions.cs:14-19 | with unique names, the scan returns the value of the one member with that name |
| `Text.TrimStart` | Ubiminds.Data/Services/PublishedItemXmlBuilder.cs:358 | the result is a suffix of the input, only white space is removed, and it does not start with white space |
| `Text.TrimEnd` | Ubiminds.Data/Services/PublishedItemXmlBuilder.cs:359 | the result is a prefix of the input, only white space is removed, and it does not end with white space |
| `Text.Trim` | Ubiminds.Data/Services/PublishedItemXmlBuilder.cs:358-359 | `Trim` is a piece of the input with only white space before and after it; it is empty exactly for a blank string, and otherwise neither end is white space |
| `Text.TrimUnchanged` | Ubiminds.Data/Services/PublishedItemXmlBuilder.cs:358-359 | a string with no white space at either end is its own trim |
| `Text.NotBlank` | Ubiminds.Data/Services/PublishedItemXmlBuilder.cs:354 | a string starting with a non-white-space character is not `IsNullOrWhiteSpace` |
| `Text.NatToString` | Ubiminds.Data/Services/PublishedItemXmlBuilder.cs:223 | `int.ToString` of a non-negative number: digits only, no leading zero, and their decimal value is the number |
| `Text.NatToStringInjective` | Ubiminds.Data/Services/PublishedItemXmlBuilder.cs:223 | different sequence numbers give different `sequence` attributes |
| `Text.IntToString` | Ubiminds.Data/Services/ValidationService.cs:67 | the interpolated `RequiredStatus`: a minus sign exactly for a negative number, then the digits of its magnitude |
| `Text.DecimalValueLeadingZeros` | Ubiminds.Data/Services/ValidationService.cs:111 | zero padding added in front of a numeral does not change its value |
| `Text.ZeroPad` | Ubiminds.Data/Services/ValidationService.cs:111 | a padded field of the date format has at least the requested width, digits only, and the number as its value |
| `Text.ToLowerAsciiString` | Ubiminds.Data/Services/PublishedItemXmlBuilder.cs:313 | lower-casing keeps the length and maps each character on its own |
| `Text.Join` | Ubiminds.Data/Services/PublishedItemXmlBuilder.cs:121 | `string.Join` of no items is empty and of one item is that item |
| `Text.SplitJoin` | Ubiminds.Data/Services/PublishedItemXmlBuilder.cs:121 | splitting the joined text at the separator gives back the list when no item contains the separator's first character |
| `Text.SplitPiece` | Ubimind.WEB/lib/utils/file.utils.ts:12 | `split` of a piece without the separator, then the rest, starts with that piece |
| `DateTimes.TicksFollowCalendar` | Ubiminds.Data/Services/ValidationService.cs:108 | an instant earlier in the calendar (year, month, day, hour, minute, second, fraction) has fewer ticks |
| `DateTimes.OnOrAfterIsCalendarOrder` | Ubiminds.Data/Services/ValidationService.cs:108 | `publishDateUtc >= minPublishDateUtc` holds exactly when the first is not calendar-before the second |
| `DateTimes.DayNumberFollowsCalendar` | Ubiminds.Data/Services/ValidationService.cs:108 | an earlier calendar day has a smaller day number |
| `DateTimes.DaysBeforeYearGrows` | Ubiminds.Data/Services/ValidationService.cs:108 | an earlier year and all of its days lie before a later year |
| `DateTimes.DaysBeforeMonthGrows` | Ubiminds.Data/Services/ValidationService.cs:108 | an earlier month and all of its days lie before a later month of the same year |
| `DateTimes.DaysBeforeMonthInYear` | Ubiminds.Data/Services/ValidationService.cs:108 | the months of a year fit inside that year |
| `DateTimes.FormatMonthDayYear` | Ubiminds.Data/Services/ValidationService.cs:111 | `MM/dd/yyyy` is ten characters with slashes at 2 and 5, and its three digit fields read back as month, day and year |
| `DateTimes.NumeralLength` | Ubiminds.Data/Services/ValidationService.cs:111 | a number below 10^k has at most k digits, so the padded fields of the format have width exactly 2, 2 and 4 |
| `Validation.ValidationResult.ErrorMessage` | Ubiminds.Test/EssentialTests.cs:36-37 | the message is null exactly for a success |
| `Validation.TryGetProperty` | Ubiminds.Data/Services/ValidationService.cs:51 | `TryGetProperty` fails exactly when no member has the name; otherwise it returns that member's value |
| `Validation.DocumentFields` | Ubiminds.Data/Services/ValidationService.cs:51 | in the three-field test document each rule finds its own field's value |
| `Validation.ValidateStatus` | Ubiminds.Data/Services/ValidationService.cs:47-69 | succeeds exactly when `Status` is the required number; a missing field, a non-number and a wrong number each give their own message |
| `Validation.ValidatePublishDate` | Ubiminds.Data/Services/ValidationService.cs:71-86 | succeeds exactly when `PublishDate` is an accepted date string; a missing field and a non-string give their own messages; a string goes on to the date-string rule |
| `Validation.ValidateDateString` | Ubiminds.Data/Services/ValidationService.cs:87-112 | succeeds exactly when the string is not blank, parses, and in UTC is on or after the minimum in UTC; blank, unparseable and too early each give their own message, the last with the minimum as `MM/dd/yyyy` |
| `Validation.ValidateTestRun` | Ubiminds.Data/Services/ValidationService.cs:115-136 | succeeds exactly when `TestRun` is `false`; missing, `true` and a non-boolean each give their own message |
| `Validation.Validate` | Ubiminds.Data/Services/ValidationService.cs:23-45 | valid exactly when all three rules accept, with no error message; otherwise the result of the first failing rule in the order Status, PublishDate, TestRun |
| `Validation.DocumentVerdict` | Ubiminds.Data/Services/ValidationService.cs:31-44 | for a document with exactly the three fields, the verdict as one case split: wrong status, then the date-string rule, then `TestRun` |
| `Validation.ValidDocumentAccepted` | Ubiminds.Test/EssentialTests.cs:14-38 | the test's valid document is accepted |
| `Validation.LaterDateAccepted` | Ubiminds.Test/EssentialTests.cs:14-38 | the test's date, after 2024-08-24, passes the date rule |
| `Validation.WrongStatusRejected` | Ubiminds.Test/EssentialTests.cs:40-64 | status 2 gives "Status must be equal to 3" |
| `Validation.DefaultMinimumFormatted` | Ubiminds.Data/Configuration/ValidationOptions.cs:8 | the default minimum 2024-08-24 formats as "08/24/2024" |
| `Validation.DefaultMinimumMessage` | Ubiminds.Test/EssentialTests.cs:88-89 | the message for a date before the default minimum reads "PublishDate must be on or after 08/24/2024", whatever the time zone |
| `Validation.EarlyDateStringRejected` | Ubiminds.Test/EssentialTests.cs:66-90 | the test's 2024-08-20 date string is rejected with that message |
| `Validation.EarlyPublishDateRejected` | Ubiminds.Test/EssentialTests.cs:66-90 | the whole test document with that date is rejected with that message |
| `Validation.TestRunRejected` | Ubiminds.Test/EssentialTests.cs:92-116 | a test run gives "TestRun must be false" |
| `Validation.StatusErrorHidesDateError` | Ubiminds.Data/Services/ValidationService.cs:31-33 | when both status and date are wrong, the reported error is a status error |
| `Validation.MinimumDateAccepted` | Ubiminds.Data/Services/ValidationService.cs:108 | a date string whose parse result is, in UTC, exactly the minimum is accepted, whatever kind the parse result has (the comparison is `>=`) |
| `Xml.ParseNodeOfEvents` | Ubiminds.Test/EssentialTests.cs:152-153 | the events written for any element parse back to that element, leaving what follows |
| `Xml.ParseChildrenOfEvents` | Ubiminds.Test/EssentialTests.cs:152-153 | the events of a child sequence and its end tag parse back to those children |
| `Xml.DocumentOfEvents` | Ubiminds.Test/EssentialTests.cs:213-214 | the events written for one root element form a document whose root is that element |
| `Xml.EventsInjective` | Ubiminds.Test/EssentialTests.cs:213-214 | two different trees never give the same event stream |
| `Xml.ElementWritten` | Ubiminds.Data/Services/PublishedItemXmlBuilder.cs:92-99 | a start tag, then attributes, then the children's events, then an end tag, are the events of that element |
| `Xml.XmlWriter.WriteStartElement` | Ubiminds.Data/Services/PublishedItemXmlBuilder.cs:92 | appends a start tag and opens the element |
| `Xml.XmlWriter.WriteAttributeString` | Ubiminds.Data/Services/PublishedItemXmlBuilder.cs:223 | appends an attribute, only while the start tag is still open |
| `Xml.XmlWriter.WriteString` | Ubiminds.Data/Services/PublishedItemXmlBuilder.cs:121 | appends text |
| `Xml.XmlWriter.WriteEndElement` | Ubiminds.Data/Services/PublishedItemXmlBuilder.cs:99 | appends an end tag and closes the innermost open element |
| `Xml.XmlWriter.WriteElementString` | Ubiminds.Data/Services/PublishedItemXmlBuilder.cs:110 | appends the events of an element holding the text, or of an empty element when the text is empty |
| `PublishedItemXml.ParseEncoding` | Ubiminds.Data/Services/PublishedItemXmlBuilder.cs:311-320 | Unicode exactly for utf-16/utf16/unicode, ASCII exactly for ascii, in any letter case; UTF-8 for utf-8, utf8 and every other name |
| `PublishedItemXml.ExtractStringProperty` | Ubiminds.Data/Services/PublishedItemXmlBuilder.cs:303-309 | a string field gives its text; absent or null gives ""; any other kind is a fault naming that kind |
| `PublishedItemXml.OptionalStringElement` | Ubiminds.Data/Services/PublishedItemXmlBuilder.cs:102-112 | `Title` and `PublishedDate`: nothing for an absent, null or empty field; otherwise one element with the field's text, untrimmed; a fault for a non-string |
| `PublishedItemXml.BlankTitleWritten` | Ubiminds.Data/Services/PublishedItemXmlBuilder.cs:105 | a title of one space is still written, because the test is `IsNullOrEmpty` and not `IsNullOrWhiteSpace` |
| `PublishedItemXml.CountryStrings` | Ubiminds.Data/Services/PublishedItemXmlBuilder.cs:141-145 | succeeds exactly when every item is a string or null; the kept items are never blank and never more than the items |
| `PublishedItemXml.CountryStringsAppend` | Ubiminds.Data/Services/PublishedItemXmlBuilder.cs:141-145 | the items are read left to right: the first fault of the concatenation wins, otherwise the lists are concatenated |
| `PublishedItemXml.CountryStringsMembers` | Ubiminds.Data/Services/PublishedItemXmlBuilder.cs:141-145 | a string is kept exactly when some item is that string and it is not blank |
| `PublishedItemXml.NonBlankCountriesKept` | Ubiminds.Data/Services/PublishedItemXmlBuilder.cs:141-145 | a list of non-blank country strings is kept whole and in order |
| `PublishedItemXml.ConcatAssociative` | Ubiminds.Data/Services/PublishedItemXmlBuilder.cs:141-145 | it does not matter how the reads are grouped: the first fault, or all lists in order |
| `PublishedItemXml.ExtractCountryList` | Ubiminds.Data/Services/PublishedItemXmlBuilder.cs:128-146 | a non-object root, or a `CountryIds` that is not an array, gives no countries; an array is read item by item |
| `PublishedItemXml.CountriesTextRecoversList` | Ubiminds.Data/Services/PublishedItemXmlBuilder.cs:118-123 | the text of `Countries` splits at ", " back into the list, when no country contains a comma |
| `PublishedItemXml.ExtractContactSections` | Ubiminds.Data/Services/PublishedItemXmlBuilder.cs:181-187 | no candidate groups unless `ReportMetadata` is an object; when it is, the `ContactInformation` items of a `ContactSection` array, flattened in order, and none when `ContactSection` is missing or not an array |
| `PublishedItemXml.FlattenAppend` | Ubiminds.Data/Services/PublishedItemXmlBuilder.cs:195-200 | the `ContactInformation` arrays are taken section by section, in order |
| `PublishedItemXml.FlattenMembers` | Ubiminds.Data/Services/PublishedItemXmlBuilder.cs:195-200 | a candidate group comes from some section's `ContactInformation` array, and every such item is a candidate |
| `PublishedItemXml.ValidateContactSection` | Ubiminds.Data/Services/PublishedItemXmlBuilder.cs:203-218 | a fault exactly when `ContactHeader` is neither string nor null; accepted only with a non-blank header and an array of `Contacts`; otherwise ignored |
| `PublishedItemXml.PersonData.DisplayName` | Ubiminds.Data/Services/PublishedItemXmlBuilder.cs:356-368 | both trimmed names joined by a space, or the one that is not empty; blank exactly when the person is not valid |
| `PublishedItemXml.ExtractPersonData` | Ubiminds.Data/Services/PublishedItemXmlBuilder.cs:238-247 | the four fields `FirstName`, `LastName`, `Title`, `PhoneNumber` read as strings; a fault exactly when one is neither string nor null |
| `PublishedItemXml.OptionalTextElement` | Ubiminds.Data/Services/PublishedItemXmlBuilder.cs:264-267 | no element exactly for blank text, otherwise one element with that text |
| `PublishedItemXml.ContactInfoNodes` | Ubiminds.Data/Services/PublishedItemXmlBuilder.cs:289-301 | no `ContactInfo` exactly for a blank phone number |
| `PublishedItemXml.PersonChildren` | Ubiminds.Data/Services/PublishedItemXmlBuilder.cs:262-301 | a `Person` holds FamilyName, GivenName, DisplayName, JobTitle, ContactInfo in that order; each is present exactly when its text is not blank, and the display name exactly when the person is valid |
| `PublishedItemXml.OptionalTags` | Ubiminds.Data/Services/PublishedItemXmlBuilder.cs:264-267 | an optional element adds its tag exactly when the text is not blank |
| `PublishedItemXml.MemberOf` | Ubiminds.Data/Services/PublishedItemXmlBuilder.cs:228-232 | one contact is read without fault exactly when its four fields are strings or null, and adds at most one member |
| `PublishedItemXml.Members` | Ubiminds.Data/Services/PublishedItemXmlBuilder.cs:226-233 | a group never has more members than contacts |
| `PublishedItemXml.MembersSucceed` | Ubiminds.Data/Services/PublishedItemXmlBuilder.cs:226-233 | a group's persons are written without fault exactly when every contact's four fields are strings or null |
| `PublishedItemXml.MembersNext` | Ubiminds.Data/Services/PublishedItemXmlBuilder.cs:226-233 | one more contact adds one `PersonGroupMember` exactly when its person is valid |
| `PublishedItemXml.MembersFaultAt` | Ubiminds.Data/Services/PublishedItemXmlBuilder.cs:226-233 | the first contact that faults decides the group's fault |
| `PublishedItemXml.MembersFaultPersists` | Ubiminds.Data/Services/PublishedItemXmlBuilder.cs:226-233 | once a prefix of the contacts faults, later contacts do not matter |
| `PublishedItemXml.MembersLast` | Ubiminds.Data/Services/PublishedItemXmlBuilder.cs:226-233 | the persons of all contacts are those of all but the last, then the last one's if it is valid |
| `PublishedItemXml.MembersAreValidPersons` | Ubiminds.Data/Services/PublishedItemXmlBuilder.cs:229-232 | a member is written exactly when some contact yields a valid person with that element |
| `PublishedItemXml.GroupOfSucceeds` | Ubiminds.Data/Services/PublishedItemXmlBuilder.cs:167-175 | one candidate group is processed without fault exactly when its header and, if accepted, its contacts are well typed |
| `PublishedItemXml.GroupOf` | Ubiminds.Data/Services/PublishedItemXmlBuilder.cs:167-175 | one candidate group adds at most one `PersonGroup` |
| `PublishedItemXml.PersonGroups` | Ubiminds.Data/Services/PublishedItemXmlBuilder.cs:165-176 | never more groups are written than there are candidates |
| `PublishedItemXml.PersonGroupsSucceed` | Ubiminds.Data/Services/PublishedItemXmlBuilder.cs:165-176 | all groups are written without fault exactly when every candidate group is well typed |
| `PublishedItemXml.PersonGroupsNext` | Ubiminds.Data/Services/PublishedItemXmlBuilder.cs:165-176 | the next candidate group is numbered one more than the groups written so far |
| `PublishedItemXml.PersonGroupsFaultAt` | Ubiminds.Data/Services/PublishedItemXmlBuilder.cs:165-176 | the first candidate group that faults decides the fault |
| `PublishedItemXml.PersonGroupsFaultPersists` | Ubiminds.Data/Services/PublishedItemXmlBuilder.cs:165-176 | once a prefix of the candidates faults, later candidates do not matter |
| `PublishedItemXml.PersonGroupsNumbered` | Ubiminds.Data/Services/PublishedItemXmlBuilder.cs:163-176 | the k-th written group is the k-th accepted candidate, with its members, numbered k + 1 from 1, skipped candidates taking no number |
| `PublishedItemXml.NumberedSnoc` | Ubiminds.Data/Services/PublishedItemXmlBuilder.cs:173-174 | appending an accepted group numbered one past the written groups keeps the numbering |
| `PublishedItemXml.PersonGroupsHeaders` | Ubiminds.Data/Services/PublishedItemXmlBuilder.cs:220-224 | every written group has attribute sequence="k+1" and a non-blank `Name` first, in the order of the accepted candidates |
| `PublishedItemXml.AcceptedSectionsHeaders` | Ubiminds.Data/Services/PublishedItemXmlBuilder.cs:205-209 | every accepted candidate group has a non-blank header |
| `PublishedItemXml.RootChildren` | Ubiminds.Data/Services/PublishedItemXmlBuilder.cs:94-97 | the root's parts in order: Title if present, Countries always, PublishedDate if present, ContactInformation always |
| `PublishedItemXml.RootElement` | Ubiminds.Data/Services/PublishedItemXmlBuilder.cs:90-100 | the root is named after the options, has no attributes, and has those children |
| `PublishedItemXml.RootElementOf` | Ubiminds.Data/Services/PublishedItemXmlBuilder.cs:90-100 | the root assembled from its four successfully read parts |
| `PublishedItemXml.RootElementSucceeds` | Ubiminds.Data/Services/PublishedItemXmlBuilder.cs:90-100 | the document is converted without a fault exactly when every string the builder reads is a string or null |
| `PublishedItemXml.TitledDocumentWritten` | Ubiminds.Test/EssentialTests.cs:119-154 | the basic test document gives Title "Test Document", an empty Countries, its PublishedDate and an empty ContactInformation |
| `PublishedItemXml.NestedDocumentWritten` | Ubiminds.Test/EssentialTests.cs:156-215 | the nested test document gives its title, countries US, CA, MX, its date and one group "Media Contact" holding Mike Johnsen |
| `PublishedItemXml.NestedDocumentFragments` | Ubiminds.Test/EssentialTests.cs:205-211 | the fragments the test looks for: "US, CA, MX", sequence="1" and Name "Media Contact" |
| `PublishedItemXml.MikePersonElement` | Ubiminds.Test/EssentialTests.cs:209-211 | the test's person gives FamilyName Johnsen, GivenName Mike, DisplayName "Mike Johnsen" and phone number 1-646-731-2332, with no JobTitle |
| `PublishedItemXml.MikeContactPerson` | Ubiminds.Data/Services/PublishedItemXmlBuilder.cs:238-247 | the test's contact reads as first name Mike, last name Johnsen, no title, and its phone number |
| `PublishedItemXml.DisplayNameOfTrimmedNames` | Ubiminds.Data/Services/PublishedItemXmlBuilder.cs:356-368 | names with no surrounding white space display as "first last" |
| `PublishedItemXml.PersonWithoutJobTitle` | Ubiminds.Data/Services/PublishedItemXmlBuilder.cs:249-301 | a person with both names and a phone number but no job title has exactly names, display name and ContactInfo/Phone/Number |
| `PublishedItemXml.MediaContactGroupWritten` | Ubiminds.Data/Services/PublishedItemXmlBuilder.cs:220-236 | the test's group is written as group 1, "Media Contact", with its one person |
| `PublishedItemXml.NestedCountries` | Ubiminds.Data/Services/PublishedItemXmlBuilder.cs:128-146 | the test's country ids read as US, CA, MX |
| `PublishedItemXml.NestedContactSections` | Ubiminds.Data/Services/PublishedItemXmlBuilder.cs:181-201 | the nested test document has exactly one candidate group, "Media Contact" |
| `PublishedItemXml.NestedPersonGroups` | Ubiminds.Data/Services/PublishedItemXmlBuilder.cs:160-179 | that candidate is written as group 1 with Mike Johnsen |
| `PublishedItemXml.MikeDisplayName` | Ubiminds.Test/EssentialTests.cs:209-210 | the test's person displays as "Mike Johnsen" |
| `PublishedItemXmlBuilder.WriteTitle` | Ubiminds.Data/Services/PublishedItemXmlBuilder.cs:102-112 | appends exactly the events of the optional `Title` element, or reports the fault of reading it |
| `PublishedItemXmlBuilder.WriteCountries` | Ubiminds.Data/Services/PublishedItemXmlBuilder.cs:114-126 | appends exactly the events of `Countries` holding the joined list, or reports the fault of reading it |
| `PublishedItemXmlBuilder.WritePublishedDate` | Ubiminds.Data/Services/PublishedItemXmlBuilder.cs:148-158 | appends exactly the events of the optional `PublishedDate` element, or reports the fault |
| `PublishedItemXmlBuilder.WriteOptionalTextElement` | Ubiminds.Data/Services/PublishedItemXmlBuilder.cs:264-267 | appends one text element, or nothing for blank text |
| `PublishedItemXmlBuilder.WritePersonName` | Ubiminds.Data/Services/PublishedItemXmlBuilder.cs:262-279 | appends the optional FamilyName, GivenName and DisplayName elements |
| `PublishedItemXmlBuilder.WritePersonJobTitle` | Ubiminds.Data/Services/PublishedItemXmlBuilder.cs:281-287 | appends the optional JobTitle element |
| `PublishedItemXmlBuilder.WritePersonContactInfo` | Ubiminds.Data/Services/PublishedItemXmlBuilder.cs:289-301 | appends ContactInfo/Phone/Number, or nothing for a blank number |
| `PublishedItemXmlBuilder.WritePersonElement` | Ubiminds.Data/Services/PublishedItemXmlBuilder.cs:252-258 | appends exactly the events of the `Person` element |
| `PublishedItemXmlBuilder.WritePersonGroupMember` | Ubiminds.Data/Services/PublishedItemXmlBuilder.cs:249-260 | appends exactly the events of `PersonGroupMember/Person` and leaves the open elements as they were |
| `PublishedItemXmlBuilder.WritePersonGroup` | Ubiminds.Data/Services/PublishedItemXmlBuilder.cs:220-236 | the loop appends the numbered group with one member per valid person, or reports the first contact's fault |
| `PublishedItemXmlBuilder.GroupWritten` | Ubiminds.Data/Services/PublishedItemXmlBuilder.cs:222-235 | start tag, sequence attribute, Name, members and end tag make up the group's events |
| `PublishedItemXmlBuilder.WriteContactInformation` | Ubiminds.Data/Services/PublishedItemXmlBuilder.cs:160-179 | the loop with its sequence counter appends `ContactInformation` with every accepted group numbered from 1, or reports the first fault |
| `PublishedItemXmlBuilder.WriteRootElement` | Ubiminds.Data/Services/PublishedItemXmlBuilder.cs:90-100 | appends exactly the events of the root element, or reports the first fault among its four parts |
| `PublishedItemXmlBuilder.RootWritten` | Ubiminds.Data/Services/PublishedItemXmlBuilder.cs:90-100 | start tag, the four parts and end tag make up the root's events |
| `PublishedItemXmlBuilder.BuildXml` | Ubiminds.Data/Services/PublishedItemXmlBuilder.cs:45-77 | succeeds exactly when the document is well typed, with the root element's events, which parse back to the root; otherwise fails with "Failed to build XML from JSON: " and the fault's message (the XmlWriter's own checks on characters and names are left out) |
| `FileUtils.ValidateFile` | Ubimind.WEB/lib/utils/file.utils.ts:4-28 | valid exactly for a present file with extension `.json` of at most 10 MB; otherwise the first failing check's message: no file, then extension, then size |
| `FileUtils.SplitLastPiece` | Ubimind.WEB/lib/utils/file.utils.ts:12 | the last piece of `split('.')` is the longest dot-free tail of the name, behind a dot when one exists |
| `FileUtils.ExtensionAfterLastDot` | Ubimind.WEB/lib/utils/file.utils.ts:12 | the extension is the lower-cased text after the last dot |
| `FileUtils.ExtensionOfDotlessName` | Ubimind.WEB/lib/utils/file.utils.ts:12 | a name without a dot is its own extension |
| `FileUtils.JsonFileAccepted` | Ubimind.WEB/lib/utils/file.utils.ts:12-27 | any name ending in a dot and "json", in any letter case, of at most 10 MB is accepted |
| `FileUtils.OversizedJsonFileRejected` | Ubimind.WEB/lib/utils/file.utils.ts:20-25 | a `.json` file over 10 MB is rejected as too large |
| `FileUtils.OtherExtensionRejected` | Ubimind.WEB/lib/utils/file.utils.ts:12-18 | a file whose last extension is not json is rejected for its extension, whatever its size |
| `FileUtils.OnlyLastExtensionCounts` | Ubimind.WEB/lib/utils/file.utils.ts:12 | `data.json.txt` is rejected and `data.txt.json` accepted |
| `FileUtils.DotlessJsonNameAccepted` | Ubimind.WEB/lib/utils/file.utils.ts:12-27 | a name without a dot that reads "json" in any case is accepted as a JSON file |
| `FileUtils.JsonNameBecomesXml` | Ubimind.WEB/lib/utils/file.utils.ts:46-48 | a trailing `.json` in any letter case becomes `.xml`, the rest of the name kept |
| `FileUtils.OtherNameUnchanged` | Ubimind.WEB/lib/utils/file.utils.ts:46-48 | a name without a trailing `.json` is left as it is |
| `FileUtils.GeneratedNameEndsWithXml` | Ubimind.WEB/lib/utils/file.utils.ts:46-48 | either the name ended in `.json` and now ends in `.xml` with the same stem, or it is unchanged |
| `FileUtils.GenerateXmlFileNameIdempotent` | Ubimind.WEB/lib/utils/file.utils.ts:46-48 | renaming twice is renaming once |
| `FileUtils.OnlyTrailingJsonReplaced` | Ubimind.WEB/lib/utils/file.utils.ts:47 | only the final `.json` of `a.json.json` is replaced |
| `FileUtils.UpperCaseJsonReplaced` | Ubimind.WEB/lib/utils/file.utils.ts:47 | `report.JSON` becomes `report.xml` |
| `FileUtils.InnerJsonKept` | Ubimind.WEB/lib/utils/file.utils.ts:47 | a `.json` that is not at the end is left alone |
| `FileUtils.AcceptedFileNamedXml` | Ubimind.WEB/lib/utils/file.utils.ts:4-48 | every name with a dot that `validateFile` accepts is renamed to its stem plus `.xml` |
| `FileUtils.DotlessJsonNameKept` | Ubimind.WEB/lib/utils/file.utils.ts:12-48 | a file named just "JSON" is accepted but keeps its name, since the rename needs a dot |

## Left out

- The HTTP controller, dependency injection, logging and `JsonToXmlConverter` are not part of this model. Neither are the React components, `useFileUpload`, the API client and `downloadFile`. All of them wrap the core without deciding anything.
- The ValidationResult class file is not part of this model. `Success`/`Failure` and `ErrorMessage` follow their use in the service and its tests.
- `ArgumentNullException.ThrowIfNull` on a null document is not modelled: a `Json` value is never null.
- `DateTime.TryParse` and `ToUniversalTime` become the parameters of `HostCalendar`. They depend on the host's culture and time zone. The model assumes only that they give representable dates. The lemmas about concrete documents assume only the UTC instant that the parse result converts to. The result itself may be of kind `Local`, which is what .NET gives for a string ending in `Z`, or of kind `Utc`.
- Validation.Validate: requires the root to be an object with unique member names (`Inspectable`). `TryGetProperty` throws on other roots, and with a repeated name it matches the last definition. The builder's `GetPropertyOrDefault` takes the first one instead.
- Validation.Validate: requires a numeric `Status` to fit in an `int` (`StatusFitsInt32`). Otherwise `GetInt32` throws, and the model does not carry that exception. JSON numbers are integers here, so a fractional `Status` is not modelled either.
- DateTimes.FormatMonthDayYear: writes `/` as the separator and uses the Gregorian calendar. .NET uses the current culture's date separator and calendar, which are `/` and Gregorian in the invariant and en-US cultures.
- Text.IntToString: writes `-` as the negative sign, as the invariant culture does. .NET uses the current culture's negative sign, which only shows in the message for a negative configured `RequiredStatus`.
- The serialisation of the event stream to text is left out: indentation, the XML declaration, character escaping, and rejection of invalid characters and names by `XmlWriter`, plus the `Utf8StringWriter` that makes the declaration say utf-8. So `BuildXml` returns `Ok` for text holding a character XML forbids, such as U+0001 in `Title`, and for an invalid `RootElementName` such as "". There .NET's `XmlWriter` throws, and `BuildXml` reports "Failed to build XML from JSON: …". `ParseEncoding` is modelled, but its value only reaches writer settings the model does not serialise. `DeclaredEncoding` records that the declaration names utf-8.
- PublishedItemXml.FaultMessage: the text of `GetString()`'s `InvalidOperationException` is modelled after the .NET message. The model does not cover the library's own wording.
- When a fault occurs, the builder is proved to report it. The part of the XML already written before the exception is not described, since `BuildXml` discards it.
- The group sequence counter is an unbounded integer: `int` overflow after 2^31 groups is not modelled.
- `ToLowerInvariant` and `toLowerCase` are modelled on ASCII letters only. No other character lower-cases to the ASCII letters of "json", "utf-8", "utf8", "utf-16", "utf16", "unicode" or "ascii", so every comparison the core makes is decided the same way.
- `WritePersonElement` is a method of the model only: it holds the inner `Person` part of `WritePersonGroupMember`, so that each proof stays small.
- `file.size` is a natural number. A `File` object's size is never negative or fractional.
