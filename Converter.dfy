/**
 * The converter proper: resolving an item code `<name>#<base-62 id>` to a label
 * through the item store, and rewriting a list of lines, each code replaced by
 * its label: the file is left as it was, emptied, or rewritten.
 */
module Converter {
  import opened Wrappers
  import opened Strings
  import opened Base62
  import opened DisplayName
  import opened Enchantments

  /** The `meta` entries of a stored item that the converter reads; None is an absent entry. */
  datatype Meta = Meta(displayName: Option<DisplayValue>, title: Option<string>,
                       storedEnchants: Option<seq<Enchantment>>)

  /** An item without a `meta` entry reads as one with no entries at all. */
  const NoMeta: Meta := Meta(None, None, None)

  /**
   * What the item store yields for an id: no row, a row whose decoding fails
   * (the error is caught and reported), or the decoded item with its optional `meta`.
   */
  datatype Record = Missing | Unreadable | Loaded(meta: Option<Meta>)

  /** The errors that escape the per-code handler and abandon the update before the file is opened. */
  datatype Abort =
    | MalformedCode   // the code does not split into exactly two parts at '#'
    | InvalidSymbol   // the id part holds a character outside the alphabet

  /**
   * What the bulk update does to the item file: leaves it as it was (a line
   * aborted the loop), empties it (it was opened for writing, then joining the
   * lines raised on a non-string label), or writes the lines.
   */
  datatype Outcome = Unchanged | Emptied | Written(lines: seq<string>)

  // ---------------------------------------------------------------- the label of an item

  /**
   * The label of an item: its display name when it has a truthy one, else its
   * unquoted title when it has a non-empty one, else its enchantment summary,
   * which falls back to `fallback`.
   */
  function ChooseLabel(meta: Meta, fallback: DisplayValue, parse: string -> Option<Component>): DisplayValue {
    var displayName := meta.displayName.GetOr(Text(""));
    if Truthy(displayName) then Text(ExtractDisplayName(displayName, parse))
    else
      var title := meta.title.GetOr("");
      if title != "" then Text(StripQuotes(title))
      else Summary(meta.storedEnchants, fallback)
  }

  /** The label of the bulk update, whose fallback is the (falsy) display-name value itself. */
  function BulkLabel(meta: Meta, parse: string -> Option<Component>): DisplayValue {
    ChooseLabel(meta, meta.displayName.GetOr(Text("")), parse)
  }

  /** The label of the single-code report, whose fallback is the item name. */
  function ReportLabel(meta: Meta, itemName: string, parse: string -> Option<Component>): DisplayValue {
    ChooseLabel(meta, Text(itemName), parse)
  }

  /** The handler's answer for a store record: a label, or None. */
  function Resolved(record: Record, parse: string -> Option<Component>): Option<DisplayValue> {
    match record
    case Missing => None
    case Unreadable => None
    case Loaded(meta) => Some(BulkLabel(meta.GetOr(NoMeta), parse))
  }

  /**
   * Resolving one code: the split at '#' and the base-62 decoding fail outside
   * the handler's error catch, so they abort; the store lookup and what follows
   * yield a label or None. `lookup` stands for the item store.
   */
  function ResolveSpec(code: string, lookup: nat -> Record, parse: string -> Option<Component>)
    : Result<Option<DisplayValue>, Abort>
  {
    var parts := Split(code, '#');
    if |parts| != 2 then Failure(MalformedCode)
    else
      match Decoded(parts[1])
      case None => Failure(InvalidSymbol)
      case Some(id) => Success(Resolved(lookup(id), parse))
  }

  method ResolveItemCode(code: string, lookup: nat -> Record, parse: string -> Option<Component>)
    returns (r: Result<Option<DisplayValue>, Abort>)
    ensures r == ResolveSpec(code, lookup, parse)
  {
    var parts := Split(code, '#');
    if |parts| != 2 {
      return Failure(MalformedCode);
    }
    var itemId := Decode(parts[1]);
    if itemId.None? {
      return Failure(InvalidSymbol);
    }
    match lookup(itemId.value)
    case Missing =>
      return Success(None);
    case Unreadable =>
      return Success(None);
    case Loaded(data) =>
      var meta := data.GetOr(NoMeta);
      var displayNameValue := meta.displayName.GetOr(Text(""));
      var displayNameText: DisplayValue;
      if Truthy(displayNameValue) {
        displayNameText := Text(ExtractDisplayName(displayNameValue, parse));
      } else {
        var titleValue := meta.title.GetOr("");
        if titleValue != "" {
          displayNameText := Text(StripQuotes(titleValue));
        } else {
          displayNameText := ExtractEnchantments(meta.storedEnchants, displayNameValue);
        }
      }
      return Success(Some(displayNameText));
  }

  /** The handler of the bulk loop: the resolution of a code through the store and the parser. */
  function Handler(lookup: nat -> Record, parse: string -> Option<Component>): Resolver {
    code => ResolveSpec(code, lookup, parse)
  }

  // ---------------------------------------------------------------- the bulk update

  /** How the bulk loop sees the per-code handler: an abort, no label, or a label. */
  type Resolver = string -> Result<Option<DisplayValue>, Abort>

  /** The item appended for one line read (the line itself or its label), or the error that abandons the update. */
  function LineResult(raw: string, resolve: Resolver): Result<DisplayValue, Abort> {
    var item := Strip(raw, IsSpace);
    if '#' !in item then Success(Text(item))
    else
      match resolve(item)
      case Failure(e) => Failure(e)
      case Success(None) => Success(Text(item))
      case Success(Some(v)) => if Truthy(v) then Success(v) else Success(Text(item))
  }

  /**
   * Rewrites the lines read from the item list. The file is unchanged exactly
   * when some line aborts the loop; otherwise it is emptied exactly when some
   * appended item is not a string, since the file is opened for writing before
   * the join raises; otherwise it holds one line per line read, in order.
   */
  method ProcessItemLines(lines: seq<string>, resolve: Resolver) returns (outcome: Outcome)
    ensures outcome == Unchanged <==> exists k | 0 <= k < |lines| :: LineResult(lines[k], resolve).Failure?
    ensures outcome == Emptied <==>
      (forall k | 0 <= k < |lines| :: LineResult(lines[k], resolve).Success?) &&
      exists k | 0 <= k < |lines| :: LineResult(lines[k], resolve).value.Opaque?
    ensures outcome.Written? ==> |outcome.lines| == |lines|
    ensures outcome.Written? ==>
      forall k | 0 <= k < |lines| :: LineResult(lines[k], resolve) == Success(Text(outcome.lines[k]))
  {
    var updatedItems: seq<DisplayValue> := [];
    for i := 0 to |lines|
      invariant |updatedItems| == i
      invariant forall k | 0 <= k < i :: LineResult(lines[k], resolve) == Success(updatedItems[k])
    {
      var item := Strip(lines[i], IsSpace);
      if '#' in item {
        var displayName := resolve(item);
        if displayName.Failure? {
          return Unchanged;
        }
        match displayName.value
        case None =>
          updatedItems := updatedItems + [Text(item)];
        case Some(found) =>
          if Truthy(found) {
            updatedItems := updatedItems + [found];
          } else {
            updatedItems := updatedItems + [Text(item)];
          }
      } else {
        updatedItems := updatedItems + [Text(item)];
      }
    }
    // the file is opened for writing here; joining then raises on a non-string item
    var written: seq<string> := [];
    for i := 0 to |updatedItems|
      invariant |written| == i
      invariant forall k | 0 <= k < i :: updatedItems[k] == Text(written[k])
    {
      if updatedItems[i].Opaque? {
        return Emptied;
      }
      written := written + [updatedItems[i].s];
    }
    return Written(written);
  }

  /** The file contents written for the updated lines. */
  function WrittenText(updated: seq<string>): string {
    Join(updated, "\n") + "\n"
  }

  // ---------------------------------------------------------------- precedence

  /** A truthy display name decides the label; the title, the enchantments and the fallback play no part. */
  lemma DisplayNameFirst(meta: Meta, fallback: DisplayValue, parse: string -> Option<Component>,
                         title: Option<string>, enchants: Option<seq<Enchantment>>, otherFallback: DisplayValue)
    requires meta.displayName.Some? && Truthy(meta.displayName.value)
    ensures ChooseLabel(meta, fallback, parse) == Text(ExtractDisplayName(meta.displayName.value, parse))
    ensures ChooseLabel(meta.(title := title, storedEnchants := enchants), otherFallback, parse)
      == ChooseLabel(meta, fallback, parse)
  {
  }

  /** Without a truthy display name, a non-empty title decides, unquoted; the enchantments and fallback play no part. */
  lemma TitleSecond(meta: Meta, fallback: DisplayValue, parse: string -> Option<Component>,
                    enchants: Option<seq<Enchantment>>, otherFallback: DisplayValue)
    requires meta.displayName.None? || !Truthy(meta.displayName.value)
    requires meta.title.Some? && meta.title.value != ""
    ensures ChooseLabel(meta, fallback, parse) == Text(StripQuotes(meta.title.value))
    ensures ChooseLabel(meta.(storedEnchants := enchants), otherFallback, parse)
      == ChooseLabel(meta, fallback, parse)
  {
  }

  /** With neither, the enchantments decide, falling back to `fallback`. */
  lemma EnchantmentsLast(meta: Meta, fallback: DisplayValue, parse: string -> Option<Component>)
    requires meta.displayName.None? || !Truthy(meta.displayName.value)
    requires meta.title.None? || meta.title.value == ""
    ensures ChooseLabel(meta, fallback, parse) == Summary(meta.storedEnchants, fallback)
  {
  }

  /**
   * A label of the bulk update that counts as found is a string: the only
   * non-string label it can produce is its falsy fallback.
   */
  lemma BulkLabelIsText(meta: Meta, parse: string -> Option<Component>)
    ensures Truthy(BulkLabel(meta, parse)) ==> BulkLabel(meta, parse).Text?
  {
    var displayName := meta.displayName.GetOr(Text(""));
    SummaryTruthyOrFallback(meta.storedEnchants, displayName);
  }

  /**
   * The two copies of the precedence differ only in their fallback: an item
   * with no display name, title or enchantment is reported under its item name
   * but yields no label in the bulk update, so its line is kept.
   */
  lemma FallbackDiffers(meta: Meta, itemName: string, parse: string -> Option<Component>)
    requires meta.displayName.None? || !Truthy(meta.displayName.value)
    requires meta.title.None? || meta.title.value == ""
    requires meta.storedEnchants.None? || meta.storedEnchants.value == []
    ensures ReportLabel(meta, itemName, parse) == Text(itemName)
    ensures !Truthy(BulkLabel(meta, parse))
  {
  }

  /** The label of an item is the label of the meta it holds, or of no meta. */
  lemma LoadedLabel(meta: Option<Meta>, parse: string -> Option<Component>)
    ensures Resolved(Loaded(meta), parse) == Some(BulkLabel(meta.GetOr(NoMeta), parse))
    ensures Resolved(Loaded(None), parse) == Some(Text(""))
  {
  }

  // ---------------------------------------------------------------- resolving a code

  /** A code aborts as malformed exactly when it does not hold exactly one '#'. */
  lemma MalformedExactly(code: string, lookup: nat -> Record, parse: string -> Option<Component>)
    ensures ResolveSpec(code, lookup, parse) == Failure(MalformedCode) <==> Count(code, '#') != 1
  {
    SplitCount(code, '#');
  }

  /**
   * A code with exactly one '#' aborts exactly when its id part holds a
   * character outside the alphabet; otherwise the store decides, under the id
   * that part denotes, and the name part plays no part.
   */
  lemma ResolveWellFormed(name: string, digits: string,
                                             lookup: nat -> Record, parse: string -> Option<Component>)
    requires '#' !in name && '#' !in digits
    ensures ResolveSpec(name + "#" + digits, lookup, parse).Failure? <==>
      exists k | 0 <= k < |digits| :: digits[k] !in Alphabet
    ensures ResolveSpec(name + "#" + digits, lookup, parse) ==
      if IsEncoded(digits) then Success(Resolved(lookup(Value(digits)), parse)) else Failure(InvalidSymbol)
  {
    assert Join([name, digits], "#") == name + "#" + digits by {
      assert [name, digits][1..] == [digits];
    }
    SplitJoin([name, digits], '#');
    DecodeFails(digits);
  }

  /** Codes that differ only in the name part resolve alike. */
  lemma NameIgnored(name: string, other: string, digits: string,
                    lookup: nat -> Record, parse: string -> Option<Component>)
    requires '#' !in name && '#' !in other && '#' !in digits
    ensures ResolveSpec(name + "#" + digits, lookup, parse) == ResolveSpec(other + "#" + digits, lookup, parse)
  {
    ResolveWellFormed(name, digits, lookup, parse);
    ResolveWellFormed(other, digits, lookup, parse);
    var outcome := if IsEncoded(digits) then Success(Resolved(lookup(Value(digits)), parse)) else Failure(InvalidSymbol);
    assert ResolveSpec(name + "#" + digits, lookup, parse) == outcome;
  }

  // ---------------------------------------------------------------- lines

  /** Every truthy label the resolver yields is a string. */
  ghost predicate StringLabels(resolve: Resolver) {
    forall code :: resolve(code).Success? && resolve(code).value.Some? && Truthy(resolve(code).value.value)
      ==> resolve(code).value.value.Text?
  }

  /** The handler yields only string labels that count as found. */
  lemma HandlerLabels(lookup: nat -> Record, parse: string -> Option<Component>)
    ensures StringLabels(Handler(lookup, parse))
  {
    forall code | ResolveSpec(code, lookup, parse).Success? && ResolveSpec(code, lookup, parse).value.Some?
      ensures Truthy(ResolveSpec(code, lookup, parse).value.value) ==> ResolveSpec(code, lookup, parse).value.value.Text?
    {
      var parts := Split(code, '#');
      var record := lookup(Decoded(parts[1]).value);
      BulkLabelIsText(record.meta.GetOr(NoMeta), parse);
    }
  }

  /**
   * A line is appended as read, stripped of surrounding white space, unless it
   * holds a code that resolves to a truthy label, which replaces it.
   */
  lemma LineKeptOrReplaced(raw: string, resolve: Resolver)
    requires LineResult(raw, resolve).Success?
    ensures var item, out := Strip(raw, IsSpace), LineResult(raw, resolve).value;
      out == Text(item) || ('#' in item && Truthy(out) && resolve(item) == Success(Some(out)))
  {
  }

  /** A line without '#' is kept, stripped, whatever the resolver does. */
  lemma PlainLineKept(raw: string, resolve: Resolver)
    requires '#' !in Strip(raw, IsSpace)
    ensures LineResult(raw, resolve) == Success(Text(Strip(raw, IsSpace)))
  {
  }

  /** A line aborts exactly when it holds a code whose resolution aborts. */
  lemma LineAborts(raw: string, resolve: Resolver)
    ensures var item := Strip(raw, IsSpace);
      LineResult(raw, resolve).Failure? <==> '#' in item && resolve(item).Failure?
  {
  }

  /** With string labels, every item appended for a line is a string. */
  lemma LineText(raw: string, resolve: Resolver)
    requires StringLabels(resolve)
    ensures LineResult(raw, resolve).Success? ==> LineResult(raw, resolve).value.Text?
  {
  }

  /**
   * In the bulk update a line aborts exactly when it holds a code whose split
   * or decoding fails, and every item appended is a string, so the file is
   * never emptied.
   */
  lemma BulkLineAborts(raw: string, lookup: nat -> Record, parse: string -> Option<Component>)
    ensures var item := Strip(raw, IsSpace);
      LineResult(raw, Handler(lookup, parse)).Failure? <==> '#' in item && ResolveSpec(item, lookup, parse).Failure?
    ensures LineResult(raw, Handler(lookup, parse)).Success? ==> LineResult(raw, Handler(lookup, parse)).value.Text?
  {
    HandlerLabels(lookup, parse);
    LineAborts(raw, Handler(lookup, parse));
    LineText(raw, Handler(lookup, parse));
  }

  /**
   * Processing a written line again gives it back unchanged, when it is a kept
   * line or a label without '#' and without surrounding white space.
   */
  lemma LineStable(raw: string, out: string, resolve: Resolver)
    requires LineResult(raw, resolve) == Success(Text(out))
    requires out != Strip(raw, IsSpace) ==> '#' !in out && Strip(out, IsSpace) == out
    ensures LineResult(out, resolve) == Success(Text(out))
  {
    if out == Strip(raw, IsSpace) {
      StripIdempotent(raw, IsSpace);
    }
  }

  // ---------------------------------------------------------------- the written file

  /**
   * The written text ends every updated line with a newline: splitting it at
   * newlines gives back the lines, then the empty remainder after the last one.
   */
  lemma WrittenLines(updated: seq<string>)
    requires |updated| >= 1
    requires forall k | 0 <= k < |updated| :: '\n' !in updated[k]
    ensures Split(WrittenText(updated), '\n') == updated + [""]
  {
    JoinSnoc(updated, "", "\n");
    assert Join(updated + [""], "\n") == WrittenText(updated);
    SplitJoin(updated + [""], '\n');
  }

  /** An empty item list is written as a single newline, which splits into two empty lines. */
  lemma WrittenNothing()
    ensures WrittenText([]) == "\n"
    ensures Split(WrittenText([]), '\n') == ["", ""]
  {
    assert Join(["", ""], "\n") == "\n";
    SplitJoin(["", ""], '\n');
  }
}
