/**
 * The static tables of the converter: display names of namespaced enchantment
 * identifiers and the Roman numerals of enchantment levels 1 to 10.
 */
module Catalog {
  import opened Wrappers
  import opened Strings

  /** The number of bindings in the enchantment-name table. */
  const TableSize: nat := 42

  /**
   * The `i`-th binding (namespaced enchantment identifier, display name) of the
   * enchantment-name table, in the order of the source, duplicates included:
   * "minecraft:sharpness" and "minecraft:sweeping" are bound twice.
   */
  function Binding(i: nat): (string, string) {
    match i
    case 0 => ("minecraft:protection", "Protection")
    case 1 => ("minecraft:fire_protection", "Fire Protection")
    case 2 => ("minecraft:feather_falling", "Feather Falling")
    case 3 => ("minecraft:blast_protection", "Blast Protection")
    case 4 => ("minecraft:projectile_protection", "Projectile Protection")
    case 5 => ("minecraft:respiration", "Respiration")
    case 6 => ("minecraft:aqua_affinity", "Aqua Affinity")
    case 7 => ("minecraft:thorns", "Thorns")
    case 8 => ("minecraft:depth_strider", "Depth Strider")
    case 9 => ("minecraft:frost_walker", "Frost Walker")
    case 10 => ("minecraft:binding_curse", "Curse of Binding")
    case 11 => ("minecraft:soul_speed", "Soul Speed")
    case 12 => ("minecraft:sharpness", "Sharpness")
    case 13 => ("minecraft:smite", "Smite")
    case 14 => ("minecraft:bane_of_arthropods", "Bane of Arthropods")
    case 15 => ("minecraft:knockback", "Knockback")
    case 16 => ("minecraft:fire_aspect", "Fire Aspect")
    case 17 => ("minecraft:looting", "Looting")
    case 18 => ("minecraft:sweeping", "Sweeping Edge")
    case 19 => ("minecraft:efficiency", "Efficiency")
    case 20 => ("minecraft:silk_touch", "Silk Touch")
    case 21 => ("minecraft:unbreaking", "Unbreaking")
    case 22 => ("minecraft:fortune", "Fortune")
    case 23 => ("minecraft:power", "Power")
    case 24 => ("minecraft:punch", "Punch")
    case 25 => ("minecraft:flame", "Flame")
    case 26 => ("minecraft:infinity", "Infinity")
    case 27 => ("minecraft:luck_of_the_sea", "Luck of the Sea")
    case 28 => ("minecraft:lure", "Lure")
    case 29 => ("minecraft:mending", "Mending")
    case 30 => ("minecraft:vanishing_curse", "Curse of Vanishing")
    case 31 => ("minecraft:riptide", "Riptide")
    case 32 => ("minecraft:channeling", "Channeling")
    case 33 => ("minecraft:impaling", "Impaling")
    case 34 => ("minecraft:loyalty", "Loyalty")
    case 35 => ("minecraft:multishot", "Multishot")
    case 36 => ("minecraft:piercing", "Piercing")
    case 37 => ("minecraft:quick_charge", "Quick Charge")
    case 38 => ("minecraft:sharpness", "Sharpness")
    case 39 => ("minecraft:sweeping", "Sweeping Edge")
    case 40 => ("minecraft:swift_sneak", "Swift Sneak")
    case _ => ("minecraft:breach", "Breach")  // 41, the last; no index beyond is read
  }


  /** Enchantment level to Roman numeral, for levels 1 to 10. */
  const RomanNumerals: map<int, string> := map[
    1 := "I", 2 := "II", 3 := "III", 4 := "IV", 5 := "V",
    6 := "VI", 7 := "VII", 8 := "VIII", 9 := "IX", 10 := "X"
  ]

  /**
   * The name the first `n` bindings of `table` give `id`: that of the last of
   * them binding it, since a later key of a dictionary literal overrides an
   * earlier one.
   */
  function LastBinding(table: nat -> (string, string), id: string, n: nat): Option<string> {
    if n == 0 then None
    else if table(n - 1).0 == id then Some(table(n - 1).1)
    else LastBinding(table, id, n - 1)
  }

  /** LastBinding finds the last binding of the key, and nothing only when the key is unbound. */
  lemma {:induction false} LastBindingSpec(table: nat -> (string, string), id: string, n: nat)
    ensures LastBinding(table, id, n).Some? ==>
      exists i | 0 <= i < n :: table(i) == (id, LastBinding(table, id, n).value)
        && forall j | i < j < n :: table(j).0 != id
    ensures LastBinding(table, id, n).None? <==> forall i | 0 <= i < n :: table(i).0 != id
  {
    if n > 0 && table(n - 1).0 != id {
      LastBindingSpec(table, id, n - 1);
    }
  }

  /** A binding that no later one overrides is what LastBinding finds. */
  lemma {:induction false} LastBindingAt(table: nat -> (string, string), id: string, n: nat, i: nat)
    requires i < n && table(i).0 == id
    requires forall j | i < j < n :: table(j).0 != id
    ensures LastBinding(table, id, n) == Some(table(i).1)
  {
    if i < n - 1 {
      LastBindingAt(table, id, n - 1, i);
    }
  }

  /** `ENCHANTMENTS_BY_NAME.get(id, id)`: an unknown identifier is its own name. */
  function EnchantmentName(id: string): string {
    LastBinding(Binding, id, TableSize).GetOr(id)
  }

  /** The numeral of a level: Roman for the levels the table covers, `str(level)` otherwise. */
  function Numeral(level: int): string {
    if level in RomanNumerals then RomanNumerals[level] else DecimalString(level)
  }

  lemma RomanNumeralRange()
    ensures forall l: int :: l in RomanNumerals <==> 1 <= l <= 10
  {
  }

  // ---------------------------------------------------------------- a reference for the numerals

  /** The value of a Roman numeral letter; 0 for any other character. */
  function LetterValue(c: char): nat {
    match c
    case 'I' => 1
    case 'V' => 5
    case 'X' => 10
    case 'L' => 50
    case 'C' => 100
    case 'D' => 500
    case 'M' => 1000
    case _ => 0
  }

  /** The value of a Roman numeral, a letter before a larger one being subtracted. */
  function RomanValue(s: string): int {
    if s == [] then 0
    else if |s| >= 2 && LetterValue(s[0]) < LetterValue(s[1]) then RomanValue(s[1..]) - LetterValue(s[0])
    else LetterValue(s[0]) + RomanValue(s[1..])
  }

  predicate IsRomanLetter(c: char) {
    c == 'I' || c == 'V' || c == 'X'
  }

  predicate IsRomanNumeral(s: string) {
    |s| >= 1 && forall k | 0 <= k < |s| :: IsRomanLetter(s[k])
  }

  lemma RomanLiterals()
    ensures RomanValue("I") == 1 && RomanValue("II") == 2 && RomanValue("III") == 3
    ensures RomanValue("IV") == 4 && RomanValue("V") == 5 && RomanValue("VI") == 6
    ensures RomanValue("VII") == 7 && RomanValue("VIII") == 8 && RomanValue("IX") == 9
    ensures RomanValue("X") == 10
  {
  }

  /** The table spells each level from 1 to 10 as the Roman numeral of that level. */
  lemma RomanTableCorrect(level: int)
    requires 1 <= level <= 10
    ensures RomanValue(Numeral(level)) == level
    ensures IsRomanNumeral(Numeral(level))
  {
    RomanNumeralRange();
    RomanLiterals();
    var s := RomanNumerals[level];
    assert s == if level == 1 then "I" else if level == 2 then "II" else if level == 3 then "III"
      else if level == 4 then "IV" else if level == 5 then "V" else if level == 6 then "VI"
      else if level == 7 then "VII" else if level == 8 then "VIII" else if level == 9 then "IX" else "X";
  }

  /** Every numeral reads back as its level: Roman from 1 to 10, decimal elsewhere. */
  lemma NumeralRoundTrip(level: int)
    ensures 1 <= level <= 10 ==> RomanValue(Numeral(level)) == level
    ensures !(1 <= level <= 10) ==> ParseDecimal(Numeral(level)) == Some(level)
  {
    RomanNumeralRange();
    if 1 <= level <= 10 {
      RomanTableCorrect(level);
    } else {
      DecimalRoundTrip(level);
    }
  }

  /** Distinct levels get distinct numerals. */
  lemma NumeralInjective(a: int, b: int)
    requires Numeral(a) == Numeral(b)
    ensures a == b
  {
    RomanNumeralRange();
    var s := Numeral(a);
    var romanA := 1 <= a <= 10;
    var romanB := 1 <= b <= 10;
    if romanA { RomanTableCorrect(a); }
    if romanB { RomanTableCorrect(b); }
    if !romanA { DecimalRoundTrip(a); }
    if !romanB { DecimalRoundTrip(b); }
    // a Roman numeral starts with a letter, a decimal string with a digit or a minus sign
    assert romanA == romanB;
  }

  /** No numeral contains a comma. */
  lemma NumeralCommaFree(level: int)
    ensures ',' !in Numeral(level)
  {
    RomanNumeralRange();
    if 1 <= level <= 10 {
      RomanTableCorrect(level);
    }
  }

  /** "minecraft:sharpness" is bound twice, both times to "Sharpness". */
  lemma SharpnessName()
    ensures EnchantmentName("minecraft:sharpness") == "Sharpness"
  {
    var id := "minecraft:sharpness";
    assert |id| == 19;
    assert |Binding(39).0| == 18 && |Binding(40).0| == 21 && |Binding(41).0| == 16;
    LastBindingAt(Binding, id, TableSize, 38);
  }

  /** The last binding of the table. */
  lemma BreachName()
    ensures EnchantmentName("minecraft:breach") == "Breach"
  {
    LastBindingAt(Binding, "minecraft:breach", TableSize, 41);
  }
}
