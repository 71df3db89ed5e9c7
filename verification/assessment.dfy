/**
 * The assessment page: the question bank shown twice, the most/least
 * choice for each question, and the checks and payload of a submission.
 */
module Assessment {
  import opened Wrappers
  import opened JsString

  // ---------------------------------------------------------------------
  // Questions

  /** One answer option: its label (`caption`, as `label` is a Dafny keyword) and the type it stands for. */
  datatype Choice = Choice(caption: string, value: string)

  datatype Question = Question(id: int, text: string, options: seq<Choice>)

  /** The four base questions. */
  const BaseQuestions: seq<Question> := [
    Question(1, "ในวันหยุด คุณมักจะ...", [
      Choice("หาอะไรท้าทายทำ แข่งขันกีฬา", "D"),
      Choice("ไปปาร์ตี้ สังสรรค์กับเพื่อนฝูง", "I"),
      Choice("นอนดูซีรีส์อยู่บ้าน พักผ่อนเงียบๆ", "S"),
      Choice("จัดห้อง อ่านหนังสือ หรือวางแผนงาน", "C")]),
    Question(2, "เพื่อนมักจะบอกว่าคุณเป็นคน...", [
      Choice("ตรงไปตรงมา พูดจาขวานผ่าซาก", "D"),
      Choice("ร่าเริง สนุกสนาน เฮฮา", "I"),
      Choice("ใจดี เป็นผู้ฟังที่ดี", "S"),
      Choice("เจ้าระเบียบ เป๊ะทุกกระเบียดนิ้ว", "C")]),
    Question(3, "เวลาทำงานกลุ่ม คุณมักจะรับบทเป็น...", [
      Choice("หัวหน้า ตัดสินใจชี้ขาด", "D"),
      Choice("คนนำเสนอ พูดหน้าชั้น", "I"),
      Choice("คนหาข้อมูล ประสานงาน", "S"),
      Choice("คนตรวจสอบความถูกต้อง ตรวจคำผิด", "C")]),
    Question(4, "สิ่งที่ทำให้คุณหงุดหงิดที่สุด...", [
      Choice("ความชักช้า ไม่ทันใจ", "D"),
      Choice("ความน่าเบื่อ บรรยากาศเงียบเหงา", "I"),
      Choice("การทะเลาะเบาะแว้ง ความขัดแย้ง", "S"),
      Choice("ความผิดพลาด ข้อมูลมั่ว", "C")])
  ]

  /** The bank shown twice in a row and renumbered from 1: entry k has id
      k + 1 and the text and options of base question k modulo the bank
      size, so the second half repeats the first. */
  function Expand(base: seq<Question>): (r: seq<Question>)
    ensures |r| == 2 * |base|
    ensures forall k :: 0 <= k < |r| ==> r[k].id == k + 1
    ensures forall k :: 0 <= k < |r| ==>
      r[k].text == base[k % |base|].text && r[k].options == base[k % |base|].options
  {
    var doubled := base + base;
    DoubledAt(base);
    seq(|doubled|, k requires 0 <= k < |doubled| => doubled[k].(id := k + 1))
  }

  /** Position k of a sequence written twice holds element k modulo its length. */
  lemma DoubledAt<T>(base: seq<T>)
    ensures forall k :: 0 <= k < 2 * |base| ==> (base + base)[k] == base[k % |base|]
  {
    forall k | 0 <= k < 2 * |base| ensures (base + base)[k] == base[k % |base|] {
      ModBelowTwice(k, |base|);
    }
  }

  /** An index below twice a length reduces by at most one subtraction. */
  lemma ModBelowTwice(k: nat, n: nat)
    requires k < 2 * n
    ensures k % n == if k < n then k else k - n
  {
    var q := if k < n then 0 else 1;
    var r := k - q * n;
    assert k == q * n + r && 0 <= r < n;
  }

  /** The questions presented, ids 1 to 8. */
  const FullQuestions: seq<Question> := Expand(BaseQuestions)

  /** The option values of a question, in order. */
  function OptionValues(q: Question): seq<string> {
    seq(|q.options|, k requires 0 <= k < |q.options| => q.options[k].value)
  }

  /** Exactly one option per type. */
  predicate OnePerType(q: Question) {
    multiset(OptionValues(q)) == multiset{"D", "I", "S", "C"}
  }

  /** Eight questions numbered 1 to 8; question k + 4 repeats question k;
      every question offers each type exactly once. */
  lemma FullQuestionsShape()
    ensures |FullQuestions| == 8
    ensures forall k :: 0 <= k < 8 ==> FullQuestions[k].id == k + 1
    ensures forall k :: 0 <= k < 4 ==>
      FullQuestions[k + 4].text == FullQuestions[k].text && FullQuestions[k + 4].options == FullQuestions[k].options
    ensures forall k :: 0 <= k < 8 ==> OnePerType(FullQuestions[k])
  {
    FullQuestionsNumbered();
    FullQuestionsOnePerType();
  }

  /** Eight questions numbered 1 to 8, the second four repeating the first. */
  lemma FullQuestionsNumbered()
    ensures |FullQuestions| == 8
    ensures forall k :: 0 <= k < 8 ==> FullQuestions[k].id == k + 1
    ensures forall k :: 0 <= k < 4 ==>
      FullQuestions[k + 4].text == FullQuestions[k].text && FullQuestions[k + 4].options == FullQuestions[k].options
  {
    var full := Expand(BaseQuestions);
    forall k | 0 <= k < 4
      ensures full[k + 4].text == full[k].text && full[k + 4].options == full[k].options
    {
      assert (k + 4) % 4 == k % 4;
    }
  }

  /** Every presented question offers each type exactly once. */
  lemma FullQuestionsOnePerType()
    ensures forall k :: 0 <= k < |FullQuestions| ==> OnePerType(FullQuestions[k])
  {
    BaseOnePerType();
    var full := Expand(BaseQuestions);
    forall k | 0 <= k < |full| ensures OnePerType(full[k]) {
      assert full[k].options == BaseQuestions[k % 4].options;
      assert OptionValues(full[k]) == OptionValues(BaseQuestions[k % 4]);
    }
  }

  /** Each base question lists the types in the order D, I, S, C. */
  lemma BaseOnePerType()
    ensures forall k :: 0 <= k < |BaseQuestions| ==> OptionValues(BaseQuestions[k]) == ["D", "I", "S", "C"]
    ensures forall k :: 0 <= k < |BaseQuestions| ==> OnePerType(BaseQuestions[k])
  {
    forall k | 0 <= k < |BaseQuestions| ensures OptionValues(BaseQuestions[k]) == ["D", "I", "S", "C"] {
      var vs := OptionValues(BaseQuestions[k]);
      assert |vs| == 4;
      assert vs[0] == "D" && vs[1] == "I" && vs[2] == "S" && vs[3] == "C";
    }
  }

  // ---------------------------------------------------------------------
  // Answers

  /** Which of the two choices of a question is being made. */
  datatype Slot = Most | Least {
    function Other(): Slot {
      if this == Most then Least else Most
    }
  }

  /** The choices made on one question so far. */
  datatype Answer = Answer(most: Option<string>, least: Option<string>) {
    function Get(slot: Slot): Option<string> {
      if slot == Most then most else least
    }
  }

  /** The answer of a question nobody has touched. */
  const Unanswered := Answer(None, None)

  /** Most and least never hold the same value. */
  predicate Exclusive(a: Answer) {
    a.most.None? || a.most != a.least
  }

  /** Choosing `value` for `slot`: the slot now holds the value, and the
      other slot loses it if it held the same value and is kept otherwise. */
  function Choose(prev: Answer, value: string, slot: Slot): (r: Answer)
    ensures r.Get(slot) == Some(value)
    ensures r.Get(slot.Other()) == if prev.Get(slot.Other()) == Some(value) then None else prev.Get(slot.Other())
    ensures Exclusive(r)
  {
    if slot == Most then
      Answer(Some(value), if prev.least == Some(value) then None else prev.least)
    else
      Answer(if prev.most == Some(value) then None else prev.most, Some(value))
  }

  /** Choosing a value as least right after choosing it as most moves it:
      most is cleared and least holds it (and the other way round). */
  lemma ChoiceMovesBetweenSlots(prev: Answer, value: string, slot: Slot)
    ensures Choose(Choose(prev, value, slot), value, slot.Other()).Get(slot) == None
    ensures Choose(Choose(prev, value, slot), value, slot.Other()).Get(slot.Other()) == Some(value)
  {
  }

  // ---------------------------------------------------------------------
  // The answers object

  /** One property of the answers object: a question id and its answer. */
  datatype Entry = Entry(questionId: nat, answer: Answer)

  /** The answers object as a list of properties in the order JavaScript
      enumerates them. Its keys are question ids, that is array indices,
      and such keys are enumerated in ascending numeric order whatever the
      order in which they were added; so the list is strictly ascending. */
  predicate Ascending(entries: seq<Entry>) {
    forall i, j :: 0 <= i < j < |entries| ==> entries[i].questionId < entries[j].questionId
  }

  /** Reading property `q`: missing exactly when no property has key `q`,
      and otherwise the answer of a property with that key (the first; in
      an object there is only one). */
  function Lookup(entries: seq<Entry>, q: nat): (r: Option<Answer>)
    ensures r.None? <==> forall k :: 0 <= k < |entries| ==> entries[k].questionId != q
    ensures r.Some? ==> exists k :: 0 <= k < |entries| && entries[k] == Entry(q, r.value)
    decreases |entries|
  {
    if entries == [] then None
    else if entries[0].questionId == q then Some(entries[0].answer)
    else
      var r := Lookup(entries[1..], q);
      assert forall k :: 1 <= k < |entries| ==> entries[k] == entries[1..][k - 1];
      r
  }

  /** The answer on record for question `q`: unanswered when no property
      has that key, and otherwise the answer stored under it (whatever it
      holds, even an empty answer). */
  function AnswerFor(entries: seq<Entry>, q: nat): (r: Answer)
    ensures (forall k :: 0 <= k < |entries| ==> entries[k].questionId != q) ==> r == Unanswered
    ensures r != Unanswered ==> exists k :: 0 <= k < |entries| && entries[k] == Entry(q, r)
    ensures (exists k :: 0 <= k < |entries| && entries[k].questionId == q) ==>
      exists k :: 0 <= k < |entries| && entries[k] == Entry(q, r)
  {
    match Lookup(entries, q)
    case Some(a) => a
    case None => Unanswered
  }

  /** Spreading the object and setting property `q` to `a`: `q` reads `a`
      afterwards, every other key reads as before, and the enumeration
      order stays ascending, the new key taking its place among the others. */
  function Put(entries: seq<Entry>, q: nat, a: Answer): (r: seq<Entry>)
    ensures forall p :: Lookup(r, p) == if p == q then Some(a) else Lookup(entries, p)
    ensures Ascending(entries) ==> Ascending(r)
    ensures r != [] && (r[0].questionId == q || (entries != [] && r[0].questionId == entries[0].questionId))
    decreases |entries|
  {
    if entries == [] then [Entry(q, a)]
    else if entries[0].questionId == q then [Entry(q, a)] + entries[1..]
    else if q < entries[0].questionId then [Entry(q, a)] + entries
    else [entries[0]] + Put(entries[1..], q, a)
  }

  /** Setting the same property twice keeps only the second value. */
  lemma {:induction false} PutTwice(entries: seq<Entry>, q: nat, a: Answer, b: Answer)
    ensures Put(Put(entries, q, a), q, b) == Put(entries, q, b)
    decreases |entries|
  {
    if entries != [] && entries[0].questionId != q && q > entries[0].questionId {
      PutTwice(entries[1..], q, a, b);
    }
  }

  /** The answers after a choice on question `q`: only that question's
      property changes, and it is created if it was missing. */
  function Selected(entries: seq<Entry>, q: nat, value: string, slot: Slot): (r: seq<Entry>)
    ensures Lookup(r, q) == Some(Choose(AnswerFor(entries, q), value, slot))
    ensures forall p :: p != q ==> Lookup(r, p) == Lookup(entries, p)
    ensures Ascending(entries) ==> Ascending(r)
  {
    Put(entries, q, Choose(AnswerFor(entries, q), value, slot))
  }

  /** Making the same choice twice is making it once. */
  lemma SelectIdempotent(entries: seq<Entry>, q: nat, value: string, slot: Slot)
    ensures Selected(Selected(entries, q, value, slot), q, value, slot) == Selected(entries, q, value, slot)
  {
    var a := Choose(AnswerFor(entries, q), value, slot);
    var once := Selected(entries, q, value, slot);
    assert AnswerFor(once, q) == a;
    assert Choose(a, value, slot) == a;
    PutTwice(entries, q, a, a);
  }

  /** One click on a most or least button. */
  datatype Selection = Selection(questionId: nat, value: string, slot: Slot)

  /** The answers after a series of clicks, in order. */
  function ApplySelections(entries: seq<Entry>, clicks: seq<Selection>): seq<Entry>
    decreases |clicks|
  {
    if clicks == [] then entries
    else
      var c := clicks[0];
      ApplySelections(Selected(entries, c.questionId, c.value, c.slot), clicks[1..])
  }

  /** Every stored answer is exclusive. */
  predicate AllExclusive(entries: seq<Entry>) {
    forall k :: 0 <= k < |entries| ==> Exclusive(entries[k].answer)
  }

  /** Every key is the id of one of the questions 1..n. */
  predicate KeysWithin(entries: seq<Entry>, n: nat) {
    forall k :: 0 <= k < |entries| ==> 1 <= entries[k].questionId <= n
  }

  /** Storing an exclusive answer under a question id in 1..n keeps every
      answer exclusive and every key in 1..n. */
  lemma {:induction false} PutKeepsShape(entries: seq<Entry>, q: nat, a: Answer, n: nat)
    requires AllExclusive(entries) && Exclusive(a)
    ensures AllExclusive(Put(entries, q, a))
    ensures KeysWithin(entries, n) && 1 <= q <= n ==> KeysWithin(Put(entries, q, a), n)
    decreases |entries|
  {
    if entries != [] && entries[0].questionId != q && q > entries[0].questionId {
      PutKeepsShape(entries[1..], q, a, n);
    }
  }

  /** After any series of clicks starting from exclusive answers (for one,
      from no answers at all), most and least never hold the same value;
      and when every click is on one of the questions 1..n, the object has
      no other keys and stays in ascending order. */
  lemma {:induction false} SelectionsKeepShape(entries: seq<Entry>, clicks: seq<Selection>, n: nat)
    requires AllExclusive(entries)
    ensures AllExclusive(ApplySelections(entries, clicks))
    ensures Ascending(entries) ==> Ascending(ApplySelections(entries, clicks))
    ensures KeysWithin(entries, n) && (forall k :: 0 <= k < |clicks| ==> 1 <= clicks[k].questionId <= n) ==>
      KeysWithin(ApplySelections(entries, clicks), n)
    decreases |clicks|
  {
    if clicks != [] {
      var c := clicks[0];
      PutKeepsShape(entries, c.questionId, Choose(AnswerFor(entries, c.questionId), c.value, c.slot), n);
      SelectionsKeepShape(Selected(entries, c.questionId, c.value, c.slot), clicks[1..], n);
    }
  }

  /** The page's state: the name typed so far and the answers object. */
  class AssessmentForm {
    var name: string
    var answers: seq<Entry>

    ghost predicate Valid()
      reads this
    {
      Ascending(answers) && AllExclusive(answers)
    }

    constructor ()
      ensures Valid() && name == "" && answers == []
    {
      name := "";
      answers := [];
    }

    /** Typing in the name field. */
    method SetName(n: string)
      requires Valid()
      modifies this
      ensures Valid()
      ensures name == n && answers == old(answers)
    {
      name := n;
    }

    /** A click on the most or least button of an option: copies the
        question's answer, clears the other slot when it holds the same
        value, sets the chosen slot and stores the copy back. */
    method Select(questionId: nat, value: string, slot: Slot)
      requires Valid()
      modifies this
      ensures Valid()
      ensures name == old(name)
      ensures answers == Selected(old(answers), questionId, value, slot)
    {
      var updated := AnswerFor(answers, questionId);
      if slot == Most && updated.least == Some(value) {
        updated := updated.(least := None);
      }
      if slot == Least && updated.most == Some(value) {
        updated := updated.(most := None);
      }
      if slot == Most {
        updated := updated.(most := Some(value));
      } else {
        updated := updated.(least := Some(value));
      }
      PutKeepsShape(answers, questionId, updated, 0);
      answers := Put(answers, questionId, updated);
    }
  }

  // ---------------------------------------------------------------------
  // Submission

  /** A choice counts only when it is a non-empty string (JavaScript truthiness). */
  predicate Truthy(o: Option<string>) {
    o.Some? && o.value != ""
  }

  /** Both choices of the question are made. */
  predicate IsAnswered(a: Answer) {
    Truthy(a.most) && Truthy(a.least)
  }

  /** The number of stored answers with both choices made. */
  function AnsweredCount(entries: seq<Entry>): (r: nat)
    ensures r <= |entries|
    decreases |entries|
  {
    if entries == [] then 0
    else (if IsAnswered(entries[0].answer) then 1 else 0) + AnsweredCount(entries[1..])
  }

  /** For an ascending object whose keys lie in lo..hi, there are at most
      as many properties as ids in that range, and the count of fully
      answered ones reaches the size of the range exactly when every id in
      it has a fully answered property. */
  lemma {:induction false} CountCoversRange(entries: seq<Entry>, lo: nat, hi: int)
    requires Ascending(entries)
    requires forall k :: 0 <= k < |entries| ==> lo <= entries[k].questionId <= hi
    ensures |entries| <= if hi < lo then 0 else hi - lo + 1
    ensures AnsweredCount(entries) >= hi - lo + 1 <==>
      forall q: nat :: lo <= q <= hi ==> IsAnswered(AnswerFor(entries, q))
    decreases |entries|
  {
    if entries == [] {
      if lo <= hi {
        assert !IsAnswered(AnswerFor(entries, lo));
      }
    } else {
      var e := entries[0];
      var rest := entries[1..];
      var first := e.questionId;
      CountCoversRange(rest, first + 1, hi);
      forall q: nat | q != first
        ensures AnswerFor(entries, q) == AnswerFor(rest, q)
      {
      }
      if first != lo {
        assert forall k :: 0 <= k < |rest| ==> rest[k].questionId != lo by {
          forall k | 0 <= k < |rest| ensures rest[k].questionId != lo {
            assert entries[0].questionId < entries[k + 1].questionId;
          }
        }
        assert !IsAnswered(AnswerFor(entries, lo));
      } else if IsAnswered(e.answer) {
        if forall q: nat :: lo + 1 <= q <= hi ==> IsAnswered(AnswerFor(rest, q)) {
          forall q: nat | lo <= q <= hi ensures IsAnswered(AnswerFor(entries, q)) {
            if q != lo {
              assert IsAnswered(AnswerFor(rest, q));
            }
          }
        } else {
          var q: nat :| lo + 1 <= q <= hi && !IsAnswered(AnswerFor(rest, q));
          assert !IsAnswered(AnswerFor(entries, q));
        }
      } else {
        assert !IsAnswered(AnswerFor(entries, lo));
      }
    }
  }

  /** One entry of the request body. */
  datatype PayloadEntry = PayloadEntry(questionId: nat, mostValue: Option<string>, leastValue: Option<string>)

  /** The request body: the name as typed and one entry per stored answer. */
  datatype Payload = Payload(name: string, answers: seq<PayloadEntry>)

  /** Why a submission is refused before anything is sent. */
  datatype Rejection = NameMissing | Unfinished

  /** The checks and payload of a submission against `questionCount`
      presented questions. The name is checked first, then the number of
      fully answered questions; the payload carries the name untrimmed and
      one entry per property of the answers object, in enumeration order. */
  function Submission(name: string, answers: seq<Entry>, questionCount: nat): (r: Result<Payload, Rejection>)
    ensures r == Err(NameMissing) <==> IsBlank(name)
    ensures r == Err(Unfinished) <==> !IsBlank(name) && AnsweredCount(answers) < questionCount
    ensures r.Ok? ==>
      && r.value.name == name
      && |r.value.answers| == |answers|
      && (forall k :: 0 <= k < |answers| ==>
            r.value.answers[k] == PayloadEntry(answers[k].questionId, answers[k].answer.most, answers[k].answer.least))
      && (Ascending(answers) ==>
            && (forall i, j :: 0 <= i < j < |answers| ==> r.value.answers[i].questionId < r.value.answers[j].questionId)
            && (forall k :: 0 <= k < |answers| ==>
                  var e := r.value.answers[k];
                  Lookup(answers, e.questionId) == Some(Answer(e.mostValue, e.leastValue))))
  {
    if Trim(name) == "" then Err(NameMissing)
    else if AnsweredCount(answers) < questionCount then Err(Unfinished)
    else
      var entries := seq(|answers|, k requires 0 <= k < |answers| =>
        PayloadEntry(answers[k].questionId, answers[k].answer.most, answers[k].answer.least));
      assert Ascending(answers) ==> forall k :: 0 <= k < |answers| ==> Lookup(answers, answers[k].questionId) == Some(answers[k].answer) by {
        if Ascending(answers) {
          LookupEach(answers);
        }
      }
      Ok(Payload(name, entries))
  }

  /** In an ascending object every property is the one read under its key. */
  lemma LookupEach(entries: seq<Entry>)
    requires Ascending(entries)
    ensures forall k :: 0 <= k < |entries| ==> Lookup(entries, entries[k].questionId) == Some(entries[k].answer)
  {
    forall k | 0 <= k < |entries| ensures Lookup(entries, entries[k].questionId) == Some(entries[k].answer) {
      LookupAt(entries, k);
    }
  }

  /** In an ascending object the property at position k is the one read
      under its own key. */
  lemma {:induction false} LookupAt(entries: seq<Entry>, k: nat)
    requires Ascending(entries) && k < |entries|
    ensures Lookup(entries, entries[k].questionId) == Some(entries[k].answer)
    decreases k
  {
    if k > 0 {
      assert entries[0].questionId < entries[k].questionId;
      assert entries[1..][k - 1] == entries[k];
      LookupAt(entries[1..], k - 1);
    }
  }

  /** With every key one of the questions 1..n, a submission goes through
      exactly when the name is not blank and every question 1..n has both
      its choices made. */
  lemma SubmissionAcceptedIffComplete(name: string, answers: seq<Entry>, n: nat)
    requires Ascending(answers) && KeysWithin(answers, n)
    ensures Submission(name, answers, n).Ok? <==>
      !IsBlank(name) && forall q: nat :: 1 <= q <= n ==> IsAnswered(AnswerFor(answers, q))
  {
    CountCoversRange(answers, 1, n);
  }

  /** From a fresh page, after any clicks on the presented questions (ids
      1..8, see FullQuestionsShape), the submission against the eight
      questions goes through exactly when a name is given and all eight
      have both choices made. */
  lemma SubmitAfterClicks(name: string, clicks: seq<Selection>)
    requires forall k :: 0 <= k < |clicks| ==> 1 <= clicks[k].questionId <= 8
    ensures Submission(name, ApplySelections([], clicks), 8).Ok? <==>
      !IsBlank(name) && forall q: nat :: 1 <= q <= 8 ==> IsAnswered(AnswerFor(ApplySelections([], clicks), q))
  {
    SelectionsKeepShape([], clicks, 8);
    SubmissionAcceptedIffComplete(name, ApplySelections([], clicks), 8);
  }

  /** An ascending object whose keys lie in lo..hi and which has as many
      properties as there are ids in that range holds exactly the ids
      lo, lo + 1, ..., hi, in that order. */
  lemma {:induction false} AscendingFillsRange(entries: seq<Entry>, lo: nat, hi: nat)
    requires Ascending(entries)
    requires forall k :: 0 <= k < |entries| ==> lo <= entries[k].questionId <= hi
    requires |entries| == hi - lo + 1
    ensures forall k :: 0 <= k < |entries| ==> entries[k].questionId == lo + k
    decreases |entries|
  {
    if entries != [] {
      var rest := entries[1..];
      var first := entries[0].questionId;
      assert forall k :: 0 <= k < |rest| ==> first + 1 <= rest[k].questionId <= hi by {
        forall k | 0 <= k < |rest| ensures first + 1 <= rest[k].questionId <= hi {
          assert rest[k] == entries[k + 1];
        }
      }
      CountCoversRange(rest, first + 1, hi);
      assert first == lo;
      if rest != [] {
        AscendingFillsRange(rest, lo + 1, hi);
        forall k | 1 <= k < |entries| ensures entries[k].questionId == lo + k {
          assert entries[k] == rest[k - 1];
        }
      }
    }
  }

  /** From a fresh page, after any clicks on the presented questions, a
      submission that goes through sends exactly eight entries, for
      questions 1 to 8 in that order, each with both choices non-empty. */
  lemma SubmittedPayloadAfterClicks(name: string, clicks: seq<Selection>)
    requires forall k :: 0 <= k < |clicks| ==> 1 <= clicks[k].questionId <= 8
    ensures var r := Submission(name, ApplySelections([], clicks), 8);
      r.Ok? ==>
        && |r.value.answers| == 8
        && forall k :: 0 <= k < 8 ==>
             && r.value.answers[k].questionId == k + 1
             && Truthy(r.value.answers[k].mostValue)
             && Truthy(r.value.answers[k].leastValue)
  {
    var answers := ApplySelections([], clicks);
    var r := Submission(name, answers, 8);
    if r.Ok? {
      SelectionsKeepShape([], clicks, 8);
      CountCoversRange(answers, 1, 8);
      assert |answers| == 8;
      AscendingFillsRange(answers, 1, 8);
      LookupEach(answers);
      forall k | 0 <= k < 8
        ensures Truthy(r.value.answers[k].mostValue) && Truthy(r.value.answers[k].leastValue)
      {
        assert AnswerFor(answers, k + 1) == answers[k].answer;
      }
    }
  }
}
