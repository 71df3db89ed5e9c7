/**
 * The backend's scoring helpers: counting D/I/S/C answers, choosing the
 * dominant type and its animal, and the compatibility text for a pair of
 * types.
 */
module Scoring {
  import opened Wrappers

  /** The four types, in the order the score table lists them. */
  datatype Axis = D | I | S | C {

    /** The one-letter key the backend uses for the type. */
    function Letter(): (r: string)
      ensures |r| == 1
    {
      match this
      case D => "D"
      case I => "I"
      case S => "S"
      case C => "C"
    }

    /** Position in the score table; ties in the maximum go to the lower rank. */
    function Rank(): (r: nat)
      ensures r < 4
    {
      match this
      case D => 0
      case I => 1
      case S => 2
      case C => 3
    }
  }

  /** One answer as the backend receives it. */
  datatype Answer = Answer(questionId: int, value: string)

  /** The score table: one count per type, keyed D, I, S, C in that order. */
  datatype Scores = Scores(d: nat, i: nat, s: nat, c: nat) {

    function Get(a: Axis): nat {
      match a
      case D => d
      case I => i
      case S => s
      case C => c
    }

    /** The table with one more point for `a` and the other scores as they were. */
    function Add(a: Axis): (r: Scores)
      ensures r.Get(a) == Get(a) + 1
      ensures forall b: Axis :: b != a ==> r.Get(b) == Get(b)
    {
      match a
      case D => this.(d := d + 1)
      case I => this.(i := i + 1)
      case S => this.(s := s + 1)
      case C => this.(c := c + 1)
    }
  }

  const ZeroScores := Scores(0, 0, 0, 0)

  /** Python's str.upper() on one character, as far as it decides whether a
      value names a type: ASCII letters, U+0131 (dotless i, which becomes I)
      and U+017F (long s, which becomes S). These are the only characters
      whose upper case is one of D, I, S or C. */
  function UpperChar(c: char): (r: char)
    ensures 'a' <= c <= 'z' ==> 'A' <= r <= 'Z' && r as int - 'A' as int == c as int - 'a' as int
    ensures r == 'D' <==> c == 'D' || c == 'd'
    ensures r == 'I' <==> c == 'I' || c == 'i' || c == '\U{131}'
    ensures r == 'S' <==> c == 'S' || c == 's' || c == '\U{17F}'
    ensures r == 'C' <==> c == 'C' || c == 'c'
  {
    if 'a' <= c <= 'z' then (c as int - 32) as char
    else if c == '\U{131}' then 'I'
    else if c == '\U{17F}' then 'S'
    else c
  }

  function Upper(s: string): (r: string)
    ensures |r| == |s|
    ensures forall k :: 0 <= k < |s| ==> r[k] == UpperChar(s[k])
  {
    seq(|s|, k requires 0 <= k < |s| => UpperChar(s[k]))
  }

  /** The type an answer value counts towards, if any: its upper case must
      be one of the four keys of the score table. */
  function AxisOf(value: string): (r: Option<Axis>)
    ensures r.Some? ==> Upper(value) == r.value.Letter()
    ensures r.None? ==> forall a: Axis :: Upper(value) != a.Letter()
  {
    var u := Upper(value);
    if u == "D" then Some(D)
    else if u == "I" then Some(I)
    else if u == "S" then Some(S)
    else if u == "C" then Some(C)
    else None
  }

  /** Exactly the one-character values below count, and nothing else. */
  lemma AxisOfValues(value: string)
    ensures AxisOf(value) == Some(D) <==> value == "D" || value == "d"
    ensures AxisOf(value) == Some(I) <==> value == "I" || value == "i" || value == "\U{131}"
    ensures AxisOf(value) == Some(S) <==> value == "S" || value == "s" || value == "\U{17F}"
    ensures AxisOf(value) == Some(C) <==> value == "C" || value == "c"
  {
    if |value| == 1 {
      assert Upper(value) == [UpperChar(value[0])];
      assert value == [value[0]];
    }
  }

  /** Number of answers that count towards `a`. */
  function Tally(answers: seq<Answer>, a: Axis): nat
  {
    if answers == [] then 0
    else
      var last := answers[|answers| - 1];
      Tally(answers[..|answers| - 1], a) + (if AxisOf(last.value) == Some(a) then 1 else 0)
  }

  /** Number of answers that count towards some type. */
  function ValidCount(answers: seq<Answer>): nat
  {
    if answers == [] then 0
    else
      var last := answers[|answers| - 1];
      ValidCount(answers[..|answers| - 1]) + (if AxisOf(last.value).Some? then 1 else 0)
  }

  /** Each counted answer adds to exactly one score, so the scores add up to
      the number of counted answers, which is at most the number of answers. */
  lemma {:induction false} TallySum(answers: seq<Answer>)
    ensures Tally(answers, D) + Tally(answers, I) + Tally(answers, S) + Tally(answers, C)
            == ValidCount(answers)
    ensures ValidCount(answers) <= |answers|
  {
    if answers != [] {
      TallySum(answers[..|answers| - 1]);
    }
  }

  /** Python's max over the keys of the score table: the keys are visited in
      order and a later key replaces the current best only when its score is
      strictly higher. The result is the index of the first maximal key. */
  function FirstMaxIndex(keys: seq<Axis>, scores: Scores): (j: nat)
    requires |keys| >= 1
    ensures j < |keys|
    ensures forall k :: 0 <= k < |keys| ==> scores.Get(keys[k]) <= scores.Get(keys[j])
    ensures forall k :: 0 <= k < j ==> scores.Get(keys[k]) < scores.Get(keys[j])
  {
    if |keys| == 1 then 0
    else
      var best := FirstMaxIndex(keys[..|keys| - 1], scores);
      if scores.Get(keys[|keys| - 1]) > scores.Get(keys[best]) then |keys| - 1 else best
  }

  /** The order in which the score table holds its keys. */
  const KeyOrder: seq<Axis> := [D, I, S, C]

  /** The dominant type: a highest score, the first of D, I, S, C on ties. */
  function DominantType(scores: Scores): (r: Axis)
    ensures forall a: Axis :: scores.Get(a) <= scores.Get(r)
    ensures forall a: Axis :: a.Rank() < r.Rank() ==> scores.Get(a) < scores.Get(r)
  {
    var j := FirstMaxIndex(KeyOrder, scores);
    assert KeyOrder[j].Rank() == j;
    forall a: Axis
      ensures scores.Get(a) <= scores.Get(KeyOrder[j])
      ensures a.Rank() < j ==> scores.Get(a) < scores.Get(KeyOrder[j])
    {
      assert KeyOrder[a.Rank()] == a;
    }
    KeyOrder[j]
  }

  /** The dominant type is the only type that is maximal and beaten on ties
      by no type ranked before it. */
  lemma DominantTypeUnique(scores: Scores, t: Axis)
    requires forall a: Axis :: scores.Get(a) <= scores.Get(t)
    requires forall a: Axis :: a.Rank() < t.Rank() ==> scores.Get(a) < scores.Get(t)
    ensures DominantType(scores) == t
  {
    var r := DominantType(scores);
    assert scores.Get(r) == scores.Get(t);
    if r.Rank() < t.Rank() {
    } else if t.Rank() < r.Rank() {
    } else {
      assert r == t;
    }
  }

  /** The animal shown for each type. */
  function AnimalName(t: Axis): string {
    match t
    case D => "กระทิง (Dominance)"
    case I => "อินทรี (Influence)"
    case S => "หนู (Steadiness)"
    case C => "หมี (Compliance)"
  }

  /** Different types are shown with different animals. */
  lemma AnimalNamesDistinct(a: Axis, b: Axis)
    requires a != b
    ensures AnimalName(a) != AnimalName(b)
  {
    assert AnimalName(a)[1] != AnimalName(b)[1];
  }

  /** Counts the answers per type, picks the dominant type and its animal.
      Every answer whose upper case is D, I, S or C adds one to that type's
      score, starting from zero; any other answer is ignored. */
  method CalculateDiscScore(answers: seq<Answer>) returns (maxType: Axis, animal: string, scores: Scores)
    ensures forall a: Axis :: scores.Get(a) == Tally(answers, a)
    ensures forall a: Axis :: scores.Get(a) <= scores.Get(maxType)
    ensures forall a: Axis :: a.Rank() < maxType.Rank() ==> scores.Get(a) < scores.Get(maxType)
    ensures animal == AnimalName(maxType)
  {
    scores := ZeroScores;
    for k := 0 to |answers|
      invariant forall a: Axis :: scores.Get(a) == Tally(answers[..k], a)
    {
      assert answers[..k + 1][..k] == answers[..k];
      var val := AxisOf(answers[k].value);
      if val.Some? {
        scores := scores.Add(val.value);
      }
    }
    assert answers[..|answers|] == answers;
    maxType := DominantType(scores);
    animal := AnimalName(maxType);
  }

  /** With no counted answer every score is zero and D wins the tie. */
  lemma NoValidAnswersGivesD(answers: seq<Answer>)
    requires ValidCount(answers) == 0
    ensures forall a: Axis :: Tally(answers, a) == 0
    ensures forall scores: Scores :: (forall a: Axis :: scores.Get(a) == Tally(answers, a)) ==> DominantType(scores) == D
  {
    TallySum(answers);
  }

  // ---------------------------------------------------------------------
  // Compatibility of two types

  /** Python's ordering of strings: code point by code point, with a proper
      prefix before the longer string. */
  predicate LexLe(a: string, b: string)
    decreases |a|
  {
    a == [] || (b != [] && (a[0] < b[0] || (a[0] == b[0] && LexLe(a[1..], b[1..]))))
  }

  lemma {:induction false} LexLeTotal(a: string, b: string)
    ensures LexLe(a, b) || LexLe(b, a)
    decreases |a|
  {
    if a != [] && b != [] && a[0] == b[0] {
      LexLeTotal(a[1..], b[1..]);
    }
  }

  lemma {:induction false} LexLeAntisymmetric(a: string, b: string)
    requires LexLe(a, b) && LexLe(b, a)
    ensures a == b
    decreases |a|
  {
    if a != [] {
      LexLeAntisymmetric(a[1..], b[1..]);
      assert a == [a[0]] + a[1..] && b == [b[0]] + b[1..];
    }
  }

  /** For one-letter strings the ordering is that of the letters. */
  lemma LexLeLetters(a: char, b: char)
    ensures LexLe([a], [b]) <==> a <= b
  {
    assert [a][1..] == [];
  }

  /** The two types sorted and joined, so that a pair and its swap share
      one key. */
  function PairKey(t1: string, t2: string): (r: string)
    ensures r == t1 + t2 || r == t2 + t1
  {
    if LexLe(t1, t2) then t1 + t2 else t2 + t1
  }

  /** The key does not depend on the order of the two types. */
  lemma PairKeySymmetric(t1: string, t2: string)
    ensures PairKey(t1, t2) == PairKey(t2, t1)
  {
    LexLeTotal(t1, t2);
    if LexLe(t1, t2) && LexLe(t2, t1) {
      LexLeAntisymmetric(t1, t2);
    }
  }

  const NormalText: string := "ความสัมพันธ์ปกติ"

  /** The compatibility texts, by pair key. */
  const CompatibilityTexts: map<string, string> := map[
    "DD" := "🔥 ไฟแลบ: ต่างคนต่างแรง งานเดินไวมากแต่อาจจะทะเลาะกันบ่อย",
    "DI" := "🚀 พุ่งทะยาน: คนนึงสั่ง คนนึงนำเสนอ เข้าขากันดีในเรื่องความเร็ว",
    "DS" := "✅ สั่ง-ทำ: D สั่ง S ทำ เป็นคู่ที่งานเดินราบรื่นที่สุด",
    "DC" := "⚡ ขั้วตรงข้าม: D เร็ว C ละเอียด อาจหงุดหงิดกัน แต่ผลงานจะสมบูรณ์แบบ",
    "II" := "🎉 ปาร์ตี้: สนุกสนาน ไอเดียกระฉูด แต่อาจจะงานไม่เสร็จตามดีล",
    "IS" := "🤝 เพื่อนรัก: บรรยากาศดีมาก ช่วยเหลือกัน แต่การตัดสินใจอาจช้า",
    "IC" := "🧩 เติมเต็ม: I คิดนอกกรอบ C ตบเข้ากรอบ เป็น Dream Team ด้านความคิดสร้างสรรค์",
    "SS" := "🕊️ สงบสุข: เข้าใจกันดีมาก แต่งานอาจจะเอื่อยๆ ขาดคนกระตุ้น",
    "SC" := "📋 มั่นคง: S คอยซัพพอร์ต C วางระบบ งานจะเรียบร้อยและเป็นระเบียบมาก",
    "CC" := "🔍 ตรวจยับ: ละเอียดขั้นสุด หาข้อผิดพลาดเก่ง แต่อาจจะใช้เวลานานเกินไป"
  ]

  /** The text for a pair of types, as written: the entry under the sorted
      key, or the normal text when there is none. */
  function CompatibilityText(t1: string, t2: string): (r: string)
    ensures r == NormalText || r in CompatibilityTexts.Values
    ensures r != NormalText <==> PairKey(t1, t2) in CompatibilityTexts
    ensures PairKey(t1, t2) in CompatibilityTexts ==> r == CompatibilityTexts[PairKey(t1, t2)]
  {
    var pair := PairKey(t1, t2);
    if pair in CompatibilityTexts then CompatibilityTexts[pair] else NormalText
  }

  /** The text does not depend on the order of the two types. */
  lemma CompatibilitySymmetric(t1: string, t2: string)
    ensures CompatibilityText(t1, t2) == CompatibilityText(t2, t1)
  {
    PairKeySymmetric(t1, t2);
  }

  /** For one-letter types the sorted key has its smaller letter first, so
      the entries keyed DC, IC and SC can never be found. */
  lemma CrossKeysUnreachable(a: char, b: char)
    ensures PairKey([a], [b]) !in {"DC", "IC", "SC"}
  {
    LexLeLetters(a, b);
    var k := PairKey([a], [b]);
    assert k[0] <= k[1];
  }

  /** The letters of the four types sort in the order D < I < S and C
      before all of them. */
  lemma PairKeyOfTypes(x: Axis, y: Axis)
    ensures x != C && y != C ==>
      PairKey(x.Letter(), y.Letter()) == if x.Rank() <= y.Rank() then x.Letter() + y.Letter() else y.Letter() + x.Letter()
    ensures (x == C || y == C) ==>
      PairKey(x.Letter(), y.Letter()) == if x == C then x.Letter() + y.Letter() else y.Letter() + x.Letter()
  {
    LexLeLetters(x.Letter()[0], y.Letter()[0]);
    assert x.Letter() == [x.Letter()[0]] && y.Letter() == [y.Letter()[0]];
  }

  /** As written: same-type pairs and the pairs of D, I and S get the entry
      stored for them, the letters in D, I, S order; C with any other type
      finds none and gets the normal text. */
  lemma CompatibilityOfTypes(x: Axis, y: Axis)
    ensures (x == C) == (y == C) ==>
      var k := if x.Rank() <= y.Rank() then x.Letter() + y.Letter() else y.Letter() + x.Letter();
      k in CompatibilityTexts && CompatibilityText(x.Letter(), y.Letter()) == CompatibilityTexts[k] != NormalText
    ensures (x == C) != (y == C) ==> CompatibilityText(x.Letter(), y.Letter()) == NormalText
  {
    PairKeyOfTypes(x, y);
    var k := PairKey(x.Letter(), y.Letter());
    match (x, y)
    case (D, D) => assert k == "DD";
    case (D, I) => assert k == "DI";
    case (D, S) => assert k == "DS";
    case (D, C) => assert k == "CD";
    case (I, D) => assert k == "DI";
    case (I, I) => assert k == "II";
    case (I, S) => assert k == "IS";
    case (I, C) => assert k == "CI";
    case (S, D) => assert k == "DS";
    case (S, I) => assert k == "IS";
    case (S, S) => assert k == "SS";
    case (S, C) => assert k == "CS";
    case (C, D) => assert k == "CD";
    case (C, I) => assert k == "CI";
    case (C, S) => assert k == "CS";
    case (C, C) => assert k == "CC";
  }

  /** The C pairings miss the entry written for them: D with C gets the
      normal text although an entry for D and C exists. */
  lemma CrossPairMissesItsEntry()
    ensures "DC" in CompatibilityTexts && CompatibilityTexts["DC"] != NormalText
    ensures CompatibilityText("D", "C") == NormalText
  {
    CompatibilityOfTypes(D, C);
  }

  /** The key with the larger string first: the other order of the pair. */
  function SwappedKey(t1: string, t2: string): (r: string)
    ensures r == t1 + t2 || r == t2 + t1
    ensures t1 + t2 != t2 + t1 ==> r != PairKey(t1, t2)
  {
    if LexLe(t1, t2) then t2 + t1 else t1 + t2
  }

  /** The lookup the sorting was meant to give: whichever order of the pair
      the table is keyed by. It agrees with the text as written wherever the
      sorted key is present. */
  function CompatibilityTextIntended(t1: string, t2: string): (r: string)
    ensures PairKey(t1, t2) in CompatibilityTexts ==> r == CompatibilityText(t1, t2)
  {
    var pair := PairKey(t1, t2);
    var swapped := SwappedKey(t1, t2);
    if pair in CompatibilityTexts then CompatibilityTexts[pair]
    else if swapped in CompatibilityTexts then CompatibilityTexts[swapped]
    else NormalText
  }

  /** The intended text does not depend on the order of the two types. */
  lemma CompatibilityIntendedSymmetric(t1: string, t2: string)
    ensures CompatibilityTextIntended(t1, t2) == CompatibilityTextIntended(t2, t1)
  {
    PairKeySymmetric(t1, t2);
    LexLeTotal(t1, t2);
    if LexLe(t1, t2) && LexLe(t2, t1) {
      LexLeAntisymmetric(t1, t2);
    }
  }

  /** Every pair of types finds the entry written for it, in one order or
      the other; D with C finds the entry keyed DC. */
  lemma CompatibilityIntendedOfTypes(x: Axis, y: Axis)
    ensures x.Letter() + y.Letter() in CompatibilityTexts || y.Letter() + x.Letter() in CompatibilityTexts
    ensures x.Letter() + y.Letter() in CompatibilityTexts ==>
      CompatibilityTextIntended(x.Letter(), y.Letter()) == CompatibilityTexts[x.Letter() + y.Letter()]
    ensures x.Letter() + y.Letter() !in CompatibilityTexts ==>
      CompatibilityTextIntended(x.Letter(), y.Letter()) == CompatibilityTexts[y.Letter() + x.Letter()]
  {
    PairKeyOfTypes(x, y);
    var k := PairKey(x.Letter(), y.Letter());
    match (x, y)
    case (D, D) => assert x.Letter() + y.Letter() == "DD" && k == "DD";
    case (D, I) => assert x.Letter() + y.Letter() == "DI" && k == "DI";
    case (D, S) => assert x.Letter() + y.Letter() == "DS" && k == "DS";
    case (D, C) => assert x.Letter() + y.Letter() == "DC" && k == "CD" && SwappedKey("D", "C") == "DC";
    case (I, D) => assert x.Letter() + y.Letter() == "ID" && k == "DI" && "ID" !in CompatibilityTexts;
    case (I, I) => assert x.Letter() + y.Letter() == "II" && k == "II";
    case (I, S) => assert x.Letter() + y.Letter() == "IS" && k == "IS";
    case (I, C) => assert x.Letter() + y.Letter() == "IC" && k == "CI" && SwappedKey("I", "C") == "IC";
    case (S, D) => assert x.Letter() + y.Letter() == "SD" && k == "DS" && "SD" !in CompatibilityTexts;
    case (S, I) => assert x.Letter() + y.Letter() == "SI" && k == "IS" && "SI" !in CompatibilityTexts;
    case (S, S) => assert x.Letter() + y.Letter() == "SS" && k == "SS";
    case (S, C) => assert x.Letter() + y.Letter() == "SC" && k == "CS" && SwappedKey("S", "C") == "SC";
    case (C, D) => assert x.Letter() + y.Letter() == "CD" && k == "CD" && SwappedKey("C", "D") == "DC" && "CD" !in CompatibilityTexts;
    case (C, I) => assert x.Letter() + y.Letter() == "CI" && k == "CI" && SwappedKey("C", "I") == "IC" && "CI" !in CompatibilityTexts;
    case (C, S) => assert x.Letter() + y.Letter() == "CS" && k == "CS" && SwappedKey("C", "S") == "SC" && "CS" !in CompatibilityTexts;
    case (C, C) => assert x.Letter() + y.Letter() == "CC" && k == "CC";
  }
}
