/** The stemmer's fixed data: four suffix groups, the vowel set used by the
    case constraint and the single-vowel safeguard, and the voiced-to-voiceless
    map used to undo consonant mutation at a stem boundary. */
module Suffixes {
  import opened LengthSort

  /** The morphological layers, tried in the order of `GroupOrder`. */
  datatype Group = Pred | Case | Poss | Plur

  const GroupOrder: seq<Group> := [Pred, Case, Poss, Plur]

  /** Position of a group in `GroupOrder`. */
  function Rank(g: Group): (k: nat)
    ensures k < |GroupOrder| && GroupOrder[k] == g
  {
    match g
    case Pred => 0
    case Case => 1
    case Poss => 2
    case Plur => 3
  }

  /** A suffix of the table. None is empty, so every strip shortens the
      word. */
  type Suffix = s: string | |s| > 0 witness "ы"

  const PluralSuffixes: seq<Suffix> := ["лар", "лер", "дар", "дер", "тар", "тер"]

  const PossessiveSuffixes: seq<Suffix> := [
    "ымыз", "іміз", "ыңыз", "іңіз",
    "лары", "лері", "дары", "дері", "тары", "тері",
    "сы", "сі", "ым", "ім", "ың", "ің",
    "м", "ң", "ы", "і"
  ]

  /** The bare accusative "н" is deliberately absent. */
  const CaseSuffixes: seq<Suffix> :=
    ["дағы", "дегі", "тағы", "тегі"]
    + ["дан", "ден", "тан", "тен", "нан", "нен"]
    + ["ның", "нің", "дың", "дің", "тың", "тің"]
    + ["нда", "нде", "мен", "бен", "пен"]
    + ["ға", "ге", "қа", "ке", "на", "не", "да", "де", "та", "те"]
    + ["ны", "ні", "ды", "ді", "ты", "ті"]
    + ["а", "е"]

  const PredicateSuffixes: seq<Suffix> := [
    "сыңдар", "сіңдер", "сыздар", "сіздер",
    "мын", "мін", "пын", "пін",
    "сың", "сің", "сыз", "сіз",
    "мыз", "міз", "пыз", "піз"
  ]

  /** The suffix list of a group, in the order written in the table. */
  function GroupSuffixes(g: Group): seq<Suffix> {
    match g
    case Pred => PredicateSuffixes
    case Case => CaseSuffixes
    case Poss => PossessiveSuffixes
    case Plur => PluralSuffixes
  }

  /** The order in which a group's suffixes are tried: longest first, ties
      in table order. */
  function OrderedSuffixes(g: Group): (r: seq<string>)
    ensures SortedByLengthDesc(r)
    ensures forall s :: s in r <==> s in GroupSuffixes(g)
  {
    SortByLengthSorted(GroupSuffixes(g));
    SortByLength(GroupSuffixes(g))
  }

  /** Every vowel letter of the Cyrillic Kazakh alphabet, including the
      borrowed ё and и and the glide у. */
  const Vowels: set<char> := {'а', 'ә', 'е', 'ё', 'и', 'і', 'о', 'у', 'ы', 'ө', 'ү', 'ұ'}

  /** Voiced final consonant -> the voiceless one it alternates with. */
  const ReverseMutation: map<char, char> := map['б' := 'п', 'г' := 'к', 'ғ' := 'қ', 'д' := 'т']
}
