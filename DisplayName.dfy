/**
 * Extraction of a display name from the `display-name` metadata value: surrounding
 * double quotes are stripped, and a value that looks like a JSON object is read as a
 * rich-text component whose `text`, or else first `extra` element, is the name.
 */
module DisplayName {
  import opened Wrappers
  import opened Strings

  /**
   * A metadata value as the deserialiser hands it over: a string, or some other
   * value, of which the model keeps only its `str()` rendering and its truthiness.
   */
  datatype DisplayValue = Text(s: string) | Opaque(rendered: string, truthy: bool)

  /** Python truthiness of a metadata value. */
  predicate Truthy(v: DisplayValue) {
    match v
    case Text(s) => s != ""
    case Opaque(_, truthy) => truthy
  }

  /** An element of a component's `extra` list: a string, an object, or any other JSON value. */
  datatype Extra = ExtraText(s: string) | ExtraComponent(text: Option<string>) | ExtraOther

  /** The fields of a parsed rich-text component that the extraction reads. */
  datatype Component = Component(text: Option<string>, extra: Option<seq<Extra>>)

  predicate IsQuote(c: char) {
    c == '"'
  }

  /** `s.strip('"')`: every leading and every trailing double quote goes. */
  function StripQuotes(s: string): string {
    Strip(s, IsQuote)
  }

  /** The test for a JSON object: starts with `{` and ends with `}`. */
  predicate LooksLikeJson(s: string) {
    |s| > 0 && s[0] == '{' && s[|s| - 1] == '}'
  }

  /** The name carried by a parsed component. */
  function RichText(c: Component): string {
    if c.text.Some? && c.text.value != "" then c.text.value
    else if c.extra.Some? && c.extra.value != [] then
      match c.extra.value[0]
      case ExtraText(s) => s
      case ExtraComponent(Some(t)) => t
      case _ => ""
    else ""
  }

  /**
   * The display name of a metadata value; `parse` stands for the JSON parser and
   * yields None where it would raise a decoding error.
   */
  function ExtractDisplayName(v: DisplayValue, parse: string -> Option<Component>): string {
    match v
    case Opaque(rendered, _) => rendered
    case Text(raw) =>
      var s := StripQuotes(raw);
      if !LooksLikeJson(s) then s
      else
        match parse(s)
        case None => s
        case Some(c) => RichText(c)
  }

  /** The value reaches the name unparsed: it is not JSON-like, or the parser rejects it. */
  predicate TakenRaw(raw: string, parse: string -> Option<Component>) {
    var s := StripQuotes(raw);
    !LooksLikeJson(s) || parse(s).None?
  }

  // ---------------------------------------------------------------- quote stripping

  /** Stripping removes quotes at the ends only, as many as there are, and leaves none there. */
  lemma QuotesStripped(raw: string)
    ensures IsStripOf(StripQuotes(raw), raw, IsQuote)
    ensures Bare(StripQuotes(raw), IsQuote)
    ensures StripQuotes(StripQuotes(raw)) == StripQuotes(raw)
    ensures Bare(raw, IsQuote) ==> StripQuotes(raw) == raw
  {
    StripIdempotent(raw, IsQuote);
    if Bare(raw, IsQuote) { StripBare(raw, IsQuote); }
  }

  /** More than one layer of quotes is removed: `""My Sword""` gives `My Sword`. */
  lemma StripQuotesLayers()
    ensures StripQuotes("\"\"My Sword\"\"") == "My Sword"
  {
    var name := "My Sword";
    assert "\"\"My Sword\"\"" == "\"\"" + name + "\"\"";
    assert AllDropped("\"\"", IsQuote) && Bare(name, IsQuote);
    StripSurrounded("\"\"", name, "\"\"", IsQuote);
  }

  /** A string of quotes strips to nothing. */
  lemma StripQuotesOnly(quotes: string)
    requires forall k | 0 <= k < |quotes| :: quotes[k] == '"'
    ensures StripQuotes(quotes) == ""
  {
    assert AllDropped(quotes, IsQuote);
    StripSurrounded(quotes, "", "", IsQuote);
    assert quotes + "" + "" == quotes;
  }

  // ---------------------------------------------------------------- the extraction

  /**
   * A string value that is not JSON-like, or that the parser rejects, gives the
   * stripped string, which then has no quote at either end.
   */
  lemma RawPassThrough(raw: string, parse: string -> Option<Component>)
    requires TakenRaw(raw, parse)
    ensures ExtractDisplayName(Text(raw), parse) == StripQuotes(raw)
    ensures Bare(ExtractDisplayName(Text(raw), parse), IsQuote)
  {
    StripIsBare(raw, IsQuote);
  }

  /** A JSON-like string the parser accepts gives the component's name. */
  lemma ParsedComponent(raw: string, parse: string -> Option<Component>)
    requires LooksLikeJson(StripQuotes(raw)) && parse(StripQuotes(raw)).Some?
    ensures ExtractDisplayName(Text(raw), parse) == RichText(parse(StripQuotes(raw)).value)
  {
  }

  /** A JSON-like string has braces at its ends, so no quotes to strip, and its parse decides. */
  lemma JsonUnquoted(json: string, parse: string -> Option<Component>)
    requires LooksLikeJson(json) && parse(json).Some?
    ensures ExtractDisplayName(Text(json), parse) == RichText(parse(json).value)
  {
    StripBare(json, IsQuote);
    ParsedComponent(json, parse);
  }

  /** Extracting again from a name that was taken raw gives the same name. */
  lemma RawNameIsStable(raw: string, parse: string -> Option<Component>)
    requires TakenRaw(raw, parse)
    ensures var name := ExtractDisplayName(Text(raw), parse);
      ExtractDisplayName(Text(name), parse) == name
  {
    var name := StripQuotes(raw);
    assert ExtractDisplayName(Text(raw), parse) == name;
    QuotesStripped(raw);
    assert StripQuotes(name) == name;
    assert !LooksLikeJson(name) || parse(name).None?;
  }

  /**
   * The name of a component: a non-empty `text` wins; otherwise the first of a
   * non-empty `extra` list gives it, when that element is a string or an object
   * with a `text`; every other component gives the empty string.
   */
  lemma RichTextSelection(c: Component)
    ensures c.text.Some? && c.text.value != "" ==> RichText(c) == c.text.value
    ensures !(c.text.Some? && c.text.value != "") && c.extra.Some? && c.extra.value != [] ==>
      match c.extra.value[0]
      case ExtraText(s) => RichText(c) == s
      case ExtraComponent(t) => RichText(c) == t.GetOr("")
      case ExtraOther => RichText(c) == ""
    ensures !(c.text.Some? && c.text.value != "") && (c.extra.None? || c.extra.value == []) ==>
      RichText(c) == ""
  {
  }

  /** A name drawn from a component is its `text` or comes from its first `extra` element. */
  lemma RichTextOrigin(c: Component)
    ensures RichText(c) == "" || RichText(c) == c.text.GetOr("")
      || (c.extra.Some? && c.extra.value != [] &&
          (c.extra.value[0] == ExtraText(RichText(c)) || c.extra.value[0] == ExtraComponent(Some(RichText(c)))))
  {
  }

  /** A name wrapped in one layer of quotes comes back without them. */
  lemma QuotedName(name: string, parse: string -> Option<Component>)
    requires Bare(name, IsQuote) && !LooksLikeJson(name)
    ensures ExtractDisplayName(Text("\"" + name + "\""), parse) == name
  {
    StripSurrounded("\"", name, "\"", IsQuote);
  }

  /**
   * A component with an empty `text` whose `extra` list starts with an object
   * carrying a `text` is named by that inner text.
   */
  lemma NameFromExtra(json: string, inner: string, rest: seq<Extra>,
                                         parse: string -> Option<Component>)
    requires LooksLikeJson(json)
    requires parse(json) == Some(Component(Some(""), Some([ExtraComponent(Some(inner))] + rest)))
    ensures ExtractDisplayName(Text(json), parse) == inner
  {
    JsonUnquoted(json, parse);
    var c := parse(json).value;
    assert RichText(c) == inner;
  }
}
