/**
 * The property payload `create_notion_page` sends for one article, and the
 * property names `check_database_properties` knows about.
 *
 * Two collaborators are parameters: `netloc`, the host part `urlparse` finds in a
 * url (the empty string when parsing raises), and `capitalize`, Python's
 * `str.capitalize`.
 */
module Payload {
  import opened Wrappers
  import opened Text
  import opened Records

  /** The database properties the importer knows about. */
  datatype Property = Title | URL | Domain | Source | Status | AddedDate | Tags | ReadingStatus | Rating

  /** The name the property has in the Notion database and in the request. */
  function Name(p: Property): string {
    match p
    case Title => "Title"
    case URL => "URL"
    case Domain => "Domain"
    case Source => "Source"
    case Status => "Status"
    case AddedDate => "AddedDate"
    case Tags => "Tags"
    case ReadingStatus => "ReadingStatus"
    case Rating => "Rating"
  }

  /** The schema, a set of property names, has property `p`. */
  predicate Has(available: set<string>, p: Property) {
    Name(p) in available
  }

  /** The properties the database must have, in the order they are checked. */
  const RequiredProperties: seq<Property> := [Title, URL, Domain, Source]

  /** Notion's limits as the importer applies them. */
  const TitleLimit: nat := 100
  const TagCountLimit: nat := 10
  const TagLengthLimit: nat := 100

  /** The Source select value that marks a page as imported from Pocket. */
  const SourceLabel := "Pocket"
  /** The ReadingStatus select value every new page starts with ("unread"). */
  const UnreadLabel := "未読"

  /** One typed property value of a page-creation request. */
  datatype Value =
    | TitleText(content: string)      // {"title": [{"text": {"content": …}}]}
    | Link(url: string)               // {"url": …}
    | RichText(content: string)       // {"rich_text": [{"text": {"content": …}}]}
    | Select(name: string)            // {"select": {"name": …}}
    | Date(epoch: int)                // {"date": {"start": <ISO-8601 local time of epoch>}}
    | MultiSelect(names: seq<string>) // {"multi_select": [{"name": …}, …]}

  /** A request's `properties` dictionary, keyed by property. */
  type Properties = map<Property, Value>

  /** `[{"name": tag[:100]} for tag in tags[:10]]`: at most ten tags, each cut to 100 characters. */
  function TruncatedTags(tags: seq<string>): (names: seq<string>)
    ensures |names| == if |tags| < TagCountLimit then |tags| else TagCountLimit
    ensures forall k :: 0 <= k < |names| ==> names[k] == Take(tags[k], TagLengthLimit)
    ensures forall k :: 0 <= k < |names| ==> |names[k]| <= TagLengthLimit
  {
    var first := Take(tags, TagCountLimit);
    seq(|first|, k requires 0 <= k < |first| => Take(first[k], TagLengthLimit))
  }

  /** True when the article fits every limit, so nothing is cut from it. */
  predicate WithinLimits(a: Article) {
    && |a.title| <= TitleLimit
    && |a.tags| <= TagCountLimit
    && forall k :: 0 <= k < |a.tags| ==> |a.tags[k]| <= TagLengthLimit
  }

  /** The four properties every request carries. */
  function RequiredPayload(a: Article, netloc: string -> string): (p: Properties)
    ensures p.Keys == {Title, URL, Domain, Source}
    ensures p[Title] == TitleText(Take(a.title, TitleLimit))
    ensures p[URL] == Link(a.url)
    ensures p[Domain] == RichText(netloc(a.url))
    ensures p[Source] == Select(SourceLabel)
  {
    map[Title := TitleText(Take(a.title, TitleLimit)),
        URL := Link(a.url),
        Domain := RichText(netloc(a.url)),
        Source := Select(SourceLabel)]
  }

  /** The optional properties a request carries: each one the schema has and there is a value for. */
  function OptionalPayload(a: Article, available: set<string>, capitalize: string -> string): (p: Properties)
    ensures (Status in p) == Has(available, Status)
    ensures (ReadingStatus in p) == Has(available, ReadingStatus)
    ensures (AddedDate in p) == (a.addedDate.Some? && Has(available, AddedDate))
    ensures (Tags in p) == (a.tags != [] && Has(available, Tags))
    ensures p.Keys <= {Status, ReadingStatus, AddedDate, Tags}
    ensures Status in p ==> p[Status] == Select(capitalize(a.status))
    ensures ReadingStatus in p ==> p[ReadingStatus] == Select(UnreadLabel)
    ensures AddedDate in p ==> p[AddedDate] == Date(a.addedDate.value)
    ensures Tags in p ==> p[Tags] == MultiSelect(TruncatedTags(a.tags))
  {
    var status: Properties := if Has(available, Status) then map[Status := Select(capitalize(a.status))] else map[];
    var reading := if Has(available, ReadingStatus) then status[ReadingStatus := Select(UnreadLabel)] else status;
    var date := if a.addedDate.Some? && Has(available, AddedDate)
      then reading[AddedDate := Date(a.addedDate.value)] else reading;
    if a.tags != [] && Has(available, Tags) then date[Tags := MultiSelect(TruncatedTags(a.tags))] else date
  }

  /**
   * The `properties` dictionary of `create_notion_page`, for an article and the
   * property names the database has.
   */
  function BuildPayload(a: Article, available: set<string>, netloc: string -> string,
                        capitalize: string -> string): (p: Properties)
    // the four required properties are always sent, whatever the schema
    ensures Title in p && URL in p && Domain in p && Source in p
    ensures p[Title].TitleText? && p[Title].content <= a.title
    ensures |p[Title].content| == if |a.title| < TitleLimit then |a.title| else TitleLimit
    ensures p[URL] == Link(a.url)
    ensures p[Domain] == RichText(netloc(a.url))
    ensures p[Source] == Select(SourceLabel)
    // each optional property is sent exactly when the schema has it and there is a value
    ensures (Status in p) == Has(available, Status)
    ensures (ReadingStatus in p) == Has(available, ReadingStatus)
    ensures (AddedDate in p) == (a.addedDate.Some? && Has(available, AddedDate))
    ensures (Tags in p) == (a.tags != [] && Has(available, Tags))
    ensures Rating !in p
    ensures Status in p ==> p[Status] == Select(capitalize(a.status))
    ensures ReadingStatus in p ==> p[ReadingStatus] == Select(UnreadLabel)
    ensures AddedDate in p ==> p[AddedDate] == Date(a.addedDate.value)
    ensures Tags in p ==> p[Tags] == MultiSelect(TruncatedTags(a.tags))
  {
    RequiredPayload(a, netloc) + OptionalPayload(a, available, capitalize)
  }

  /**
   * For an article within the limits nothing is lost: the payload's title is the
   * article's title and its tags, when sent, are the article's tags.
   */
  lemma PayloadKeepsArticle(a: Article, available: set<string>, netloc: string -> string,
                            capitalize: string -> string)
    requires WithinLimits(a)
    ensures BuildPayload(a, available, netloc, capitalize)[Title] == TitleText(a.title)
    ensures Has(available, Tags) && a.tags != [] ==>
              BuildPayload(a, available, netloc, capitalize)[Tags] == MultiSelect(a.tags)
  {
    var names := TruncatedTags(a.tags);
    assert |names| == |a.tags|;
    assert forall k :: 0 <= k < |names| ==> names[k] == a.tags[k];
  }
}
