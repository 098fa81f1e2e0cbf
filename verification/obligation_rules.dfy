/**
 * The keyword rules the obligation extractor applies to one sentence: who is responsible,
 * how urgent it is, what kind of obligation it is, and the numeric weight of a priority.
 * Every rule looks for keywords as substrings of the lower-cased sentence.
 */
module ObligationRules {
  import opened Text

  /** ObligationPriority, in declaration order. */
  datatype Priority = Critical | High | Medium | Low
  {
    /** The enum's string value. */
    function Name(): string {
      match this
      case Critical => "critical"
      case High => "high"
      case Medium => "medium"
      case Low => "low"
    }

    /** Position in the enum's declaration, most urgent first. */
    function Index(): nat {
      match this
      case Critical => 0
      case High => 1
      case Medium => 2
      case Low => 3
    }
  }

  /** ObligationType, in declaration order. */
  datatype ObligationType =
    | Payment | Delivery | Reporting | Termination | Renewal | Compliance | Notification | General
  {
    /** The enum's string value. */
    function Name(): string {
      match this
      case Payment => "payment"
      case Delivery => "delivery"
      case Reporting => "reporting"
      case Termination => "termination"
      case Renewal => "renewal"
      case Compliance => "compliance"
      case Notification => "notification"
      case General => "general"
    }
  }

  const Priorities: seq<Priority> := [Critical, High, Medium, Low]
  const ObligationTypes: seq<ObligationType> :=
    [Payment, Delivery, Reporting, Termination, Renewal, Compliance, Notification, General]

  // ----- finding the first keyword that occurs -----

  /** The position of the first keyword that occurs in s, or |kws| when none does. */
  function FirstContained(s: string, kws: seq<string>): (k: nat)
    ensures k <= |kws|
    ensures k < |kws| ==> Contains(s, kws[k])
    ensures forall j :: 0 <= j < k ==> !Contains(s, kws[j])
  {
    if kws == [] then 0
    else if Contains(s, kws[0]) then 0
    else 1 + FirstContained(s, kws[1..])
  }

  /** The position of the first keyword list with a keyword in s, or |lists| when none has. */
  function FirstListContained(s: string, lists: seq<seq<string>>): (k: nat)
    ensures k <= |lists|
    ensures k < |lists| ==> AnyContained(s, lists[k])
    ensures forall j :: 0 <= j < k ==> !AnyContained(s, lists[j])
  {
    if lists == [] then 0
    else if AnyContained(s, lists[0]) then 0
    else 1 + FirstListContained(s, lists[1..])
  }

  // ----- the responsible party -----

  /** The party names looked for, in the order they are tried. */
  const Parties: seq<string> := [
    "buyer", "seller", "vendor", "client", "contractor",
    "company", "employee", "employer", "provider", "customer",
    "licensee", "licensor", "tenant", "landlord", "borrower", "lender"
  ]
  const DefaultParty: string := "Party"

  predicate IsAsciiLetter(c: char) {
    'a' <= c <= 'z' || 'A' <= c <= 'Z'
  }

  function UpperChar(c: char): char {
    if 'a' <= c <= 'z' then (c as int - 32) as char else c
  }

  /**
   * Python's str.title() on ASCII text: a letter is upper-cased when it starts a run of
   * letters and lower-cased otherwise.
   */
  function Title(s: string): (r: string)
    ensures |r| == |s|
  {
    seq(|s|, i requires 0 <= i < |s| =>
      if i == 0 || !IsAsciiLetter(s[i - 1]) then UpperChar(s[i]) else LowerChar(s[i]))
  }

  /** Python's _extract_party. */
  function ExtractParty(sentence: string): string
  {
    var k := FirstContained(Lower(sentence), Parties);
    if k < |Parties| then Title(Parties[k]) else DefaultParty
  }

  predicate IsLowerWord(w: string) {
    |w| > 0 && forall i :: 0 <= i < |w| ==> 'a' <= w[i] <= 'z'
  }

  /** Lower-casing a title-cased lower-case word gives the word back. */
  lemma {:induction false} LowerTitle(w: string)
    requires IsLowerWord(w)
    ensures Lower(Title(w)) == w
    ensures Title(w)[0] == UpperChar(w[0]) && Title(w)[1..] == w[1..]
  {
    var t := Title(w);
    forall i | 0 <= i < |w| ensures Lower(t)[i] == w[i] && (0 < i ==> t[i] == w[i]) {
      if 0 < i {
        assert IsAsciiLetter(w[i - 1]);
      }
    }
  }

  lemma {:induction false} PartiesAreLowerWords()
    ensures forall k :: 0 <= k < |Parties| ==> IsLowerWord(Parties[k])
  {
  }

  /**
   * The responsible party is the first name of the party list (in the list's order, not the
   * sentence's) that occurs in the lower-cased sentence, title-cased; with none, "Party".
   */
  lemma {:induction false} ExtractPartySpec(sentence: string) returns (k: nat)
    ensures k <= |Parties|
    ensures forall j :: 0 <= j < k ==> !Contains(Lower(sentence), Parties[j])
    ensures k == |Parties| ==> ExtractParty(sentence) == DefaultParty
    ensures k < |Parties| ==>
      && Contains(Lower(sentence), Parties[k])
      && ExtractParty(sentence) == Title(Parties[k])
      && Lower(ExtractParty(sentence)) == Parties[k]
  {
    k := FirstContained(Lower(sentence), Parties);
    if k < |Parties| {
      PartiesAreLowerWords();
      LowerTitle(Parties[k]);
    }
  }

  /** The default "Party" is reported exactly when no party name occurs. */
  lemma {:induction false} DefaultPartyIff(sentence: string)
    ensures ExtractParty(sentence) == DefaultParty <==> !AnyContained(Lower(sentence), Parties)
  {
    var k := ExtractPartySpec(sentence);
    if k < |Parties| {
      DefaultIsNoParty();
    }
  }

  /** "Party" lower-cased is none of the names looked for. */
  lemma {:induction false} DefaultIsNoParty()
    ensures Lower(DefaultParty) !in Parties
  {
    assert Lower(DefaultParty) == "party";
  }

  // ----- the priority -----

  const CriticalKeywords: seq<string> :=
    ["terminate", "termination", "default", "breach", "penalty", "immediately"]
  const HighKeywords: seq<string> := ["payment", "deliver", "must", "critical", "essential"]
  const MediumKeywords: seq<string> := ["should", "notify", "report", "provide"]

  /** Python's _infer_priority. */
  function InferPriority(sentence: string): Priority
  {
    var lower := Lower(sentence);
    if AnyContained(lower, CriticalKeywords) then Critical
    else if AnyContained(lower, HighKeywords) then High
    else if AnyContained(lower, MediumKeywords) then Medium
    else Low
  }

  /**
   * The priority levels are tried in order: a critical keyword decides CRITICAL whatever else
   * the sentence holds, HIGH needs a high keyword and no critical one, MEDIUM a medium keyword
   * and neither of the others, and LOW is left when no keyword of any level occurs.
   */
  lemma {:induction false} PriorityPrecedence(sentence: string)
    ensures var lower := Lower(sentence);
      && (InferPriority(sentence) == Critical <==> AnyContained(lower, CriticalKeywords))
      && (InferPriority(sentence) == High <==>
            !AnyContained(lower, CriticalKeywords) && AnyContained(lower, HighKeywords))
      && (InferPriority(sentence) == Medium <==>
            !AnyContained(lower, CriticalKeywords) && !AnyContained(lower, HighKeywords)
            && AnyContained(lower, MediumKeywords))
      && (InferPriority(sentence) == Low <==>
            !AnyContained(lower, CriticalKeywords) && !AnyContained(lower, HighKeywords)
            && !AnyContained(lower, MediumKeywords))
  {
  }

  lemma {:induction false} AnyContainedWithin(s: string, kws: seq<string>, before: string, after: string)
    requires AnyContained(s, kws)
    ensures AnyContained(before + s + after, kws)
  {
    var k :| 0 <= k < |kws| && Contains(s, kws[k]);
    ContainsWithin(s, kws[k], before, after);
  }

  /**
   * Adding text around a sentence never makes it less urgent: the keywords it holds are still
   * there.
   */
  lemma {:induction false} PriorityMonotone(sentence: string, before: string, after: string)
    ensures InferPriority(before + sentence + after).Index() <= InferPriority(sentence).Index()
  {
    var lower := Lower(sentence);
    LowerConcat(before + sentence, after);
    LowerConcat(before, sentence);
    if AnyContained(lower, CriticalKeywords) {
      AnyContainedWithin(lower, CriticalKeywords, Lower(before), Lower(after));
    } else if AnyContained(lower, HighKeywords) {
      AnyContainedWithin(lower, HighKeywords, Lower(before), Lower(after));
    } else if AnyContained(lower, MediumKeywords) {
      AnyContainedWithin(lower, MediumKeywords, Lower(before), Lower(after));
    }
  }

  /** A sentence that says "must" is at least HIGH priority. */
  lemma {:induction false} MustIsHighPriority(sentence: string)
    requires Contains(Lower(sentence), "must")
    ensures InferPriority(sentence) == Critical || InferPriority(sentence) == High
  {
    assert HighKeywords[2] == "must";
  }

  // ----- the obligation type -----

  /** The keyword lists of _infer_type, in the dictionary's order. */
  const TypeKeywords: seq<seq<string>> := [
    ["pay", "payment", "fee", "invoice", "compensat"],
    ["deliver", "provide", "supply", "furnish"],
    ["report", "notify", "inform", "communicate"],
    ["terminat", "cancel", "end", "cease"],
    ["renew", "extend", "continuation"],
    ["comply", "adhere", "conform", "follow"],
    ["notice", "notify", "inform", "advise"]
  ]

  /** Python's _infer_type. */
  function InferType(sentence: string): ObligationType
  {
    var k := FirstListContained(Lower(sentence), TypeKeywords);
    if k < |TypeKeywords| then ObligationTypes[k] else General
  }

  /**
   * The type is the first type, in the dictionary's order, with a keyword in the sentence;
   * with none, GENERAL.
   */
  lemma {:induction false} InferTypeSpec(sentence: string) returns (k: nat)
    ensures k <= |TypeKeywords|
    ensures forall j :: 0 <= j < k ==> !AnyContained(Lower(sentence), TypeKeywords[j])
    ensures k == |TypeKeywords| ==> InferType(sentence) == General
    ensures k < |TypeKeywords| ==>
      AnyContained(Lower(sentence), TypeKeywords[k]) && InferType(sentence) == ObligationTypes[k]
  {
    k := FirstListContained(Lower(sentence), TypeKeywords);
  }

  /**
   * "notify" is a REPORTING keyword before it is a NOTIFICATION one, so a sentence that says
   * "notify" is never classified NOTIFICATION.
   */
  lemma {:induction false} NotifyIsNotNotification(sentence: string)
    requires Contains(Lower(sentence), "notify")
    ensures InferType(sentence) in {Payment, Delivery, Reporting}
  {
    assert TypeKeywords[2][1] == "notify";
    assert AnyContained(Lower(sentence), TypeKeywords[2]);
  }

  /**
   * "end" is a TERMINATION keyword and occurs inside "vendor", so a sentence naming the
   * vendor is TERMINATION unless an earlier type matched first.
   */
  lemma {:induction false} VendorIsTermination(sentence: string)
    requires Contains(Lower(sentence), "vendor")
    ensures InferType(sentence) in {Payment, Delivery, Reporting, Termination}
  {
    var lower := Lower(sentence);
    var i := ContainsWitness(lower, "vendor");
    assert lower[i + 1..i + 4] == lower[i..i + 6][1..4];
    ContainsAt(lower, "end", i + 1);
    assert TypeKeywords[3][2] == "end";
    assert AnyContained(lower, TypeKeywords[3]);
  }

  // ----- the priority weight -----

  /** Python's _priority_weight: a string enum compares equal to its value. */
  function PriorityWeight(priority: string): nat
  {
    if priority == "critical" then 4
    else if priority == "high" then 3
    else if priority == "medium" then 2
    else if priority == "low" then 1
    else 0
  }

  /** The weights are 4, 3, 2 and 1, following the enum's order, most urgent heaviest. */
  lemma {:induction false} PriorityWeightOrder(a: Priority, b: Priority)
    ensures PriorityWeight(Critical.Name()) == 4 && PriorityWeight(High.Name()) == 3
    ensures PriorityWeight(Medium.Name()) == 2 && PriorityWeight(Low.Name()) == 1
    ensures PriorityWeight(a.Name()) > 0
    ensures PriorityWeight(a.Name()) > PriorityWeight(b.Name()) <==> a.Index() < b.Index()
    ensures PriorityWeight(a.Name()) == PriorityWeight(b.Name()) <==> a == b
  {
  }

  /** A string that is not a priority's value weighs 0. */
  lemma {:induction false} UnknownPriorityWeightless(other: string)
    requires forall p: Priority :: other != p.Name()
    ensures PriorityWeight(other) == 0
  {
    assert other != Critical.Name() && other != High.Name();
    assert other != Medium.Name() && other != Low.Name();
  }
}
