/**
 * The label of an enchanted book: "Enchanted Book [" followed by one
 * "<name> <numeral>" entry per stored enchantment, in storage order, joined by
 * ", ", and "]"; an item without stored enchantments keeps the fallback label.
 */
module Enchantments {
  import opened Wrappers
  import opened Strings
  import opened Catalog
  import opened DisplayName

  /** A stored enchantment: its namespaced identifier and its level. */
  type Enchantment = (string, int)

  const Prefix: string := "Enchanted Book ["
  const Suffix: string := "]"
  const Separator: string := ", "

  /** The entry of one stored enchantment. */
  function Entry(e: Enchantment): string {
    EnchantmentName(e.0) + " " + Numeral(e.1)
  }

  /** The entries of the stored enchantments, one each, in the same order. */
  function Entries(es: seq<Enchantment>): seq<string> {
    seq(|es|, k requires 0 <= k < |es| => Entry(es[k]))
  }

  /**
   * The label the enchantments give: the fallback when there are none (the
   * `stored-enchants` entry is missing, null or empty), the book label otherwise.
   */
  function Summary(stored: Option<seq<Enchantment>>, fallback: DisplayValue): DisplayValue {
    if stored.None? || stored.value == [] then fallback
    else Text(Prefix + Join(Entries(stored.value), Separator) + Suffix)
  }

  /** Builds the label entry by entry, as the converter does. */
  method ExtractEnchantments(stored: Option<seq<Enchantment>>, fallback: DisplayValue)
    returns (r: DisplayValue)
    ensures r == Summary(stored, fallback)
    ensures stored.None? || stored.value == [] ==> r == fallback
    ensures stored.Some? && stored.value != [] ==>
      r.Text? && r.s == Prefix + Join(Entries(stored.value), Separator) + Suffix
  {
    var enchantments := stored.GetOr([]);
    if enchantments == [] {
      return fallback;
    }
    var names: seq<string> := [];
    for i := 0 to |enchantments|
      invariant |names| == i
      invariant forall k | 0 <= k < i :: names[k] == Entry(enchantments[k])
    {
      var (enchantment, level) := enchantments[i];
      var enchantName := EnchantmentName(enchantment);
      var romanLevel := Numeral(level);
      names := names + [enchantName + " " + romanLevel];
    }
    assert names == Entries(enchantments);
    if names != [] {
      r := Text(Prefix + Join(names, Separator) + Suffix);
    } else {
      r := fallback;
    }
  }

  // ---------------------------------------------------------------- properties

  /**
   * Stored enchantments always yield a non-empty string label, so the branch of
   * the converter that falls back after the loop is never taken.
   */
  lemma SummaryOfEnchantments(es: seq<Enchantment>, fallback: DisplayValue)
    requires es != []
    ensures Summary(Some(es), fallback).Text? && Truthy(Summary(Some(es), fallback))
    ensures var s := Summary(Some(es), fallback).s;
      |s| > |Prefix| + |Suffix| && s[..|Prefix|] == Prefix && s[|s| - 1] == ']'
  {
    var body := Join(Entries(es), Separator);
    assert |Entry(es[0])| > 0;
    JoinLength(Entries(es), Separator);
    var s := Prefix + body + Suffix;
    assert s[..|Prefix|] == Prefix;
  }

  /** A join is at least as long as its first piece. */
  lemma JoinLength(parts: seq<string>, sep: string)
    requires |parts| >= 1
    ensures |Join(parts, sep)| >= |parts[0]|
  {
  }

  /** Without stored enchantments the fallback is the label, whatever it is. */
  lemma NoEnchantments(stored: Option<seq<Enchantment>>, fallback: DisplayValue)
    requires stored.None? || stored.value == []
    ensures Summary(stored, fallback) == fallback
  {
  }

  /** Only the fallback label can be falsy: the summary is truthy or is the fallback. */
  lemma SummaryTruthyOrFallback(stored: Option<seq<Enchantment>>, fallback: DisplayValue)
    ensures Truthy(Summary(stored, fallback)) || Summary(stored, fallback) == fallback
  {
    if stored.Some? && stored.value != [] {
      SummaryOfEnchantments(stored.value, fallback);
    }
  }

  /** The entries are `, `-joined: the same join as on `,` with a space leading every later entry. */
  function Spaced(entries: seq<string>): (r: seq<string>)
    requires |entries| >= 1
    ensures |r| == |entries| && r[0] == entries[0]
    ensures forall k | 1 <= k < |entries| :: r[k] == " " + entries[k]
  {
    [entries[0]] + seq(|entries| - 1, k requires 0 <= k < |entries| - 1 => " " + entries[k + 1])
  }

  /** A prefix on the first piece of a join is a prefix of the join. */
  lemma JoinPrefixed(p: string, x: string, tail: seq<string>, sep: string)
    ensures Join([p + x] + tail, sep) == p + Join([x] + tail, sep)
  {
    if tail != [] {
      assert ([p + x] + tail)[1..] == tail && ([x] + tail)[1..] == tail;
    }
  }

  lemma {:induction false} JoinSpaced(entries: seq<string>)
    requires |entries| >= 1
    ensures Join(entries, Separator) == Join(Spaced(entries), ",")
  {
    if |entries| > 1 {
      var rest := entries[1..];
      JoinSpaced(rest);
      var spaced, spacedRest := Spaced(entries), Spaced(rest);
      assert spaced[1..] == [" " + rest[0]] + spacedRest[1..];
      assert spacedRest == [rest[0]] + spacedRest[1..];
      JoinPrefixed(" ", rest[0], spacedRest[1..], ",");
    }
  }

  /**
   * When no entry contains a comma, splitting the bracketed text at its commas
   * gives back every entry, in order, each after the first behind one space.
   */
  lemma EntriesRecovered(es: seq<Enchantment>)
    requires es != []
    requires forall k | 0 <= k < |es| :: ',' !in Entry(es[k])
    ensures Split(Join(Entries(es), Separator), ',') == Spaced(Entries(es))
  {
    var spaced := Spaced(Entries(es));
    JoinSpaced(Entries(es));
    forall k | 0 <= k < |spaced|
      ensures ',' !in spaced[k]
    {
      if k > 0 {
        assert spaced[k] == " " + Entry(es[k]);
      }
    }
    SplitJoin(spaced, ',');
  }

  /**
   * The book label lists the stored enchantments in order: when no name contains
   * a comma, the text between the brackets splits at its commas into the entries,
   * each after the first behind one space.
   */
  lemma BookEntries(es: seq<Enchantment>, fallback: DisplayValue)
    requires es != []
    requires forall k | 0 <= k < |es| :: ',' !in EnchantmentName(es[k].0)
    ensures var s := Summary(Some(es), fallback).s;
      exists body | s == Prefix + body + Suffix :: Split(body, ',') == Spaced(Entries(es))
  {
    forall k | 0 <= k < |es|
      ensures ',' !in Entry(es[k])
    {
      NumeralCommaFree(es[k].1);
    }
    EntriesRecovered(es);
    var body := Join(Entries(es), Separator);
    assert Summary(Some(es), fallback).s == Prefix + body + Suffix;
  }

  /** Two stored enchantments give two entries behind the prefix, joined by `, `. */
  lemma TwoEntries(a: Enchantment, b: Enchantment, fallback: DisplayValue)
    ensures Summary(Some([a, b]), fallback) == Text(Prefix + (Entry(a) + Separator + Entry(b)) + Suffix)
  {
    var x, y := Entry(a), Entry(b);
    assert Entries([a, b]) == [x, y];
    JoinPair(x, y, Separator);
  }

  lemma JoinPair(x: string, y: string, sep: string)
    ensures Join([x, y], sep) == x + sep + y
  {
    assert [x, y][1..] == [y];
  }

  /** A book with Sharpness V and Breach I. */
  lemma BookExample(fallback: DisplayValue)
    ensures Summary(Some([("minecraft:sharpness", 5), ("minecraft:breach", 1)]), fallback)
      == Text("Enchanted Book [Sharpness V, Breach I]")
  {
    TwoEntries(("minecraft:sharpness", 5), ("minecraft:breach", 1), fallback);
    ExampleEntries();
    ExampleText();
  }

  lemma ExampleEntries()
    ensures Entry(("minecraft:sharpness", 5)) == "Sharpness V"
    ensures Entry(("minecraft:breach", 1)) == "Breach I"
  {
    SharpnessName();
    BreachName();
    RomanNumeralRange();
    assert Numeral(5) == "V" && Numeral(1) == "I";
  }

  lemma ExampleText()
    ensures Prefix + ("Sharpness V" + Separator + "Breach I") + Suffix
      == "Enchanted Book [Sharpness V, Breach I]"
  {
  }
}
