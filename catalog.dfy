/** The question catalog: the `questions` table, the validation rules that
    guard it, the public listing that hides the answer key, and the admin
    operations that insert, partially update and delete rows. */
module Catalog {
  import opened Common

  /** Every question offers exactly this many options. */
  const OptionCount: nat := 4

  /** The database enum of categories. */
  predicate IsCategory(c: string) {
    c == "TWK" || c == "TIU" || c == "TKP"
  }

  /** A `required` string: an empty string counts as missing. */
  predicate IsText(s: string) {
    |s| > 0
  }

  /** `options` is an array of size 4 whose entries are strings. */
  predicate IsOptionList(options: seq<string>) {
    |options| == OptionCount && forall i :: 0 <= i < |options| ==> IsText(options[i])
  }

  /** `correct_answer` is an integer between 0 and 3. */
  predicate IsAnswerIndex(k: int) {
    0 <= k < OptionCount
  }

  /** One row of the `questions` table. The category is kept as the string the
      scoring loop compares against; the table invariant restricts it to the enum. */
  datatype Question = Question(
    id: int,
    category: string,
    text: string,
    options: seq<string>,
    correctAnswer: int,
    isActive: bool)

  /** What every stored question satisfies. */
  predicate WellFormed(q: Question) {
    IsCategory(q.category) && IsText(q.text) && IsOptionList(q.options) && IsAnswerIndex(q.correctAnswer)
  }

  /** The fields of a create or update request; `None` is a field the request
      does not carry. */
  datatype QuestionInput = QuestionInput(
    category: Option<string>,
    text: Option<string>,
    options: Option<seq<string>>,
    correctAnswer: Option<int>,
    isActive: Option<bool>)

  /** The validation rules of `store`: every field required and well formed. */
  predicate StoreRulesHold(input: QuestionInput) {
    && input.category.Some? && IsCategory(input.category.value)
    && input.text.Some? && IsText(input.text.value)
    && input.options.Some? && IsOptionList(input.options.value)
    && input.correctAnswer.Some? && IsAnswerIndex(input.correctAnswer.value)
  }

  /** The validation rules of `update`: every field optional ('sometimes'),
      and well formed when present. */
  predicate UpdateRulesHold(input: QuestionInput) {
    && (input.category.Some? ==> IsCategory(input.category.value))
    && (input.text.Some? ==> IsText(input.text.value))
    && (input.options.Some? ==> IsOptionList(input.options.value))
    && (input.correctAnswer.Some? ==> IsAnswerIndex(input.correctAnswer.value))
  }

  /** The row `store` inserts. `is_active` is not among the validated fields
      of `store`, so the column default (true) applies. */
  function Created(id: int, input: QuestionInput): (q: Question)
    requires StoreRulesHold(input)
    ensures WellFormed(q) && q.id == id && q.isActive
    ensures q.correctAnswer == input.correctAnswer.value && q.category == input.category.value
    ensures q.text == input.text.value && q.options == input.options.value
  {
    Question(id, input.category.value, input.text.value, input.options.value,
             input.correctAnswer.value, true)
  }

  /** The row after `update`: each supplied field replaced, every other field kept. */
  function Patch(q: Question, input: QuestionInput): (r: Question)
    ensures r.id == q.id
    ensures r.category == (if input.category.Some? then input.category.value else q.category)
    ensures r.text == (if input.text.Some? then input.text.value else q.text)
    ensures r.options == (if input.options.Some? then input.options.value else q.options)
    ensures r.correctAnswer == (if input.correctAnswer.Some? then input.correctAnswer.value else q.correctAnswer)
    ensures r.isActive == (if input.isActive.Some? then input.isActive.value else q.isActive)
  {
    Question(q.id,
             input.category.GetOr(q.category),
             input.text.GetOr(q.text),
             input.options.GetOr(q.options),
             input.correctAnswer.GetOr(q.correctAnswer),
             input.isActive.GetOr(q.isActive))
  }

  /** A validated update keeps a well-formed question well formed. */
  lemma PatchKeepsWellFormed(q: Question, input: QuestionInput)
    requires WellFormed(q) && UpdateRulesHold(input)
    ensures WellFormed(Patch(q, input))
  {
  }

  /** Sending the same update twice is the same as sending it once. */
  lemma PatchIdempotent(q: Question, input: QuestionInput)
    ensures Patch(Patch(q, input), input) == Patch(q, input)
  {
  }

  /** `Question::active()`: the active rows, in table order. */
  function Active(rows: seq<Question>): (r: seq<Question>)
    ensures forall q :: q in r <==> q in rows && q.isActive
    ensures |r| <= |rows|
  {
    if rows == [] then []
    else
      var init := Active(rows[..|rows| - 1]);
      if rows[|rows| - 1].isActive then init + [rows[|rows| - 1]] else init
  }

  /** A table whose rows are all active lists every row. */
  lemma {:induction false} AllActive(rows: seq<Question>)
    requires forall i :: 0 <= i < |rows| ==> rows[i].isActive
    ensures Active(rows) == rows
  {
    if rows != [] {
      var init := rows[..|rows| - 1];
      assert forall i :: 0 <= i < |init| ==> init[i] == rows[i];
      AllActive(init);
      assert rows == init + [rows[|rows| - 1]];
    }
  }

  /** The position of the row with the given id, as route-model binding and
      `findOrFail` look it up. */
  function Lookup(rows: seq<Question>, id: int): (r: Option<nat>)
    ensures r.Some? ==> r.value < |rows| && rows[r.value].id == id
    ensures r.None? ==> forall i :: 0 <= i < |rows| ==> rows[i].id != id
  {
    if rows == [] then None
    else if rows[|rows| - 1].id == id then Some(|rows| - 1)
    else Lookup(rows[..|rows| - 1], id)
  }

  /** Ids identify rows. */
  predicate UniqueIds(rows: seq<Question>) {
    forall i, j :: 0 <= i < |rows| && 0 <= j < |rows| && rows[i].id == rows[j].id ==> i == j
  }

  /** A question as `index` sends it to the client: there is no field for the
      correct answer. */
  datatype PublicQuestion = PublicQuestion(id: int, category: string, text: string, options: seq<string>)

  function Summary(q: Question): PublicQuestion {
    PublicQuestion(q.id, q.category, q.text, q.options)
  }

  /** `index`: every active question, and only those, projected to its public fields. */
  function Index(rows: seq<Question>): (r: seq<PublicQuestion>)
    ensures |r| == |Active(rows)|
    ensures forall p :: p in r ==> exists q :: q in rows && q.isActive && p == Summary(q)
    ensures forall q :: q in rows && q.isActive ==> Summary(q) in r
  {
    var active := Active(rows);
    var r := seq(|active|, i requires 0 <= i < |active| => Summary(active[i]));
    assert forall q :: q in active ==> Summary(q) in r by {
      forall q | q in active ensures Summary(q) in r {
        var i :| 0 <= i < |active| && active[i] == q;
        assert r[i] == Summary(q);
      }
    }
    assert forall p :: p in r ==> exists q :: q in rows && q.isActive && p == Summary(q) by {
      forall p | p in r ensures exists q :: q in rows && q.isActive && p == Summary(q) {
        var i :| 0 <= i < |r| && r[i] == p;
        assert active[i] in active;
      }
    }
    r
  }

  /** Two tables that differ at most in their answer keys. */
  predicate SameButAnswers(rows1: seq<Question>, rows2: seq<Question>) {
    |rows1| == |rows2| &&
    forall i :: 0 <= i < |rows1| ==> rows1[i] == rows2[i].(correctAnswer := rows1[i].correctAnswer)
  }

  lemma {:induction false} ActiveSameButAnswers(rows1: seq<Question>, rows2: seq<Question>)
    requires SameButAnswers(rows1, rows2)
    ensures SameButAnswers(Active(rows1), Active(rows2))
  {
    if rows1 != [] {
      var n := |rows1| - 1;
      assert SameButAnswers(rows1[..n], rows2[..n]);
      ActiveSameButAnswers(rows1[..n], rows2[..n]);
      var x1, x2 := rows1[n], rows2[n];
      assert x1.isActive == x2.isActive;
      if x1.isActive {
        SameButAnswersSnoc(Active(rows1[..n]), Active(rows2[..n]), x1, x2);
      }
    }
  }

  lemma SameButAnswersSnoc(a1: seq<Question>, a2: seq<Question>, x1: Question, x2: Question)
    requires SameButAnswers(a1, a2) && x1 == x2.(correctAnswer := x1.correctAnswer)
    ensures SameButAnswers(a1 + [x1], a2 + [x2])
  {
  }

  /** The listing never depends on the answer key: changing any correct
      answer leaves the output of `index` exactly as it was. */
  lemma IndexHidesAnswers(rows1: seq<Question>, rows2: seq<Question>)
    requires SameButAnswers(rows1, rows2)
    ensures Index(rows1) == Index(rows2)
  {
    ActiveSameButAnswers(rows1, rows2);
    var a1, a2 := Active(rows1), Active(rows2);
    var r1, r2 := Index(rows1), Index(rows2);
    assert |r1| == |r2|;
    forall i | 0 <= i < |r1| ensures r1[i] == r2[i] {
      assert r1[i] == Summary(a1[i]);
      assert r2[i] == Summary(a2[i]);
    }
  }

  /** A deactivated question stays in the table but is not listed. */
  lemma InactiveNotListed(rows: seq<Question>, k: nat)
    requires UniqueIds(rows) && k < |rows| && !rows[k].isActive
    ensures rows[k] in rows
    ensures forall p :: p in Index(rows) ==> p.id != rows[k].id
  {
    forall p | p in Index(rows) ensures p.id != rows[k].id {
      var q :| q in rows && q.isActive && p == Summary(q);
      var j :| 0 <= j < |rows| && rows[j] == q;
    }
  }

  /** Auto-increment ids, strictly increasing in table order and below the
      next id to hand out, and every row well formed. */
  predicate TableInvariant(rows: seq<Question>, nextId: int) {
    && 0 < nextId
    && (forall i, j :: 0 <= i < j < |rows| ==> rows[i].id < rows[j].id)
    && (forall i :: 0 <= i < |rows| ==> 0 < rows[i].id < nextId && WellFormed(rows[i]))
  }

  /** Where the rows end up when row `k` is deleted. */
  lemma RemovedPositions(rows: seq<Question>, k: nat)
    requires k < |rows|
    ensures |rows[..k] + rows[k + 1..]| == |rows| - 1
    ensures forall i :: 0 <= i < k ==> (rows[..k] + rows[k + 1..])[i] == rows[i]
    ensures forall i :: k < i < |rows| ==> (rows[..k] + rows[k + 1..])[i - 1] == rows[i]
  {
  }

  /** Deleting one row keeps the invariant, removes every row with that id
      and keeps every other row. */
  lemma RemoveRow(rows: seq<Question>, nextId: int, k: nat)
    requires TableInvariant(rows, nextId) && k < |rows|
    ensures TableInvariant(rows[..k] + rows[k + 1..], nextId)
    ensures forall q :: q in rows[..k] + rows[k + 1..] ==> q.id != rows[k].id
    ensures forall q :: q in rows && q.id != rows[k].id ==> q in rows[..k] + rows[k + 1..]
  {
    RemoveKeepsInvariant(rows, nextId, k);
    RemoveDropsId(rows, nextId, k);
    RemoveKeepsOthers(rows, k);
  }

  lemma RemoveKeepsInvariant(rows: seq<Question>, nextId: int, k: nat)
    requires TableInvariant(rows, nextId) && k < |rows|
    ensures TableInvariant(rows[..k] + rows[k + 1..], nextId)
  {
    var after := rows[..k] + rows[k + 1..];
    RemovedPositions(rows, k);
    forall i | 0 <= i < |after| ensures 0 < after[i].id < nextId && WellFormed(after[i]) {
      if i >= k {
        assert after[i] == rows[i + 1];
      }
    }
    forall i, j | 0 <= i < j < |after| ensures after[i].id < after[j].id {
      if j < k {
      } else if i < k {
        assert after[j] == rows[j + 1];
      } else {
        assert after[i] == rows[i + 1] && after[j] == rows[j + 1];
      }
    }
  }

  lemma RemoveDropsId(rows: seq<Question>, nextId: int, k: nat)
    requires TableInvariant(rows, nextId) && k < |rows|
    ensures forall q :: q in rows[..k] + rows[k + 1..] ==> q.id != rows[k].id
  {
    var after := rows[..k] + rows[k + 1..];
    RemovedPositions(rows, k);
    forall q | q in after ensures q.id != rows[k].id {
      var i :| 0 <= i < |after| && after[i] == q;
      if i >= k {
        assert after[i] == rows[i + 1];
      }
    }
  }

  lemma RemoveKeepsOthers(rows: seq<Question>, k: nat)
    requires k < |rows|
    ensures forall q :: q in rows && q.id != rows[k].id ==> q in rows[..k] + rows[k + 1..]
  {
    var after := rows[..k] + rows[k + 1..];
    RemovedPositions(rows, k);
    forall q | q in rows && q.id != rows[k].id ensures q in after {
      var j :| 0 <= j < |rows| && rows[j] == q;
      if j < k {
        assert after[j] == q;
      } else {
        assert after[j - 1] == q;
      }
    }
  }

  /** The `questions` table. Ids are auto-increment: strictly increasing in
      table order and below the next id to hand out. */
  class QuestionTable {
    var rows: seq<Question>
    var nextId: int

    ghost predicate Valid()
      reads this
    {
      TableInvariant(rows, nextId)
    }

    constructor ()
      ensures Valid() && rows == [] && nextId == 1
    {
      rows := [];
      nextId := 1;
    }

    /** `store`: admin only; inserts a new active row when the request
      validates, and leaves the table alone otherwise. */
    method Store(caller: Option<User>, input: QuestionInput) returns (res: Result<Question>)
      requires Valid()
      modifies this
      ensures Valid()
      ensures !IsAdmin(caller) ==> res == Err(Forbidden)
      ensures IsAdmin(caller) && !StoreRulesHold(input) ==> res == Err(ValidationError)
      ensures IsAdmin(caller) && StoreRulesHold(input) ==> res == Ok(Created(old(nextId), input))
      ensures res.Err? ==> rows == old(rows) && nextId == old(nextId)
      ensures res.Ok? ==> rows == old(rows) + [res.value] && nextId == old(nextId) + 1
    {
      if !IsAdmin(caller) {
        return Err(Forbidden);
      }
      if !StoreRulesHold(input) {
        return Err(ValidationError);
      }
      var q := Created(nextId, input);
      rows := rows + [q];
      nextId := nextId + 1;
      res := Ok(q);
    }

    /** `update`: admin only; changes exactly the supplied fields of the
      addressed row and nothing else in the table. */
    method Update(caller: Option<User>, id: int, input: QuestionInput) returns (res: Result<Question>)
      requires Valid()
      modifies this
      ensures Valid() && nextId == old(nextId)
      ensures !IsAdmin(caller) ==> res == Err(Forbidden)
      ensures IsAdmin(caller) && Lookup(old(rows), id).None? ==> res == Err(NotFound)
      ensures IsAdmin(caller) && Lookup(old(rows), id).Some? && !UpdateRulesHold(input) ==> res == Err(ValidationError)
      ensures res.Err? ==> rows == old(rows)
      ensures res.Ok? ==>
        && IsAdmin(caller) && UpdateRulesHold(input) && Lookup(old(rows), id).Some?
        && var k := Lookup(old(rows), id).value;
        && res.value == Patch(old(rows)[k], input)
        && rows == old(rows)[k := res.value]
      ensures IsAdmin(caller) && Lookup(old(rows), id).Some? && UpdateRulesHold(input) ==> res.Ok?
    {
      if !IsAdmin(caller) {
        return Err(Forbidden);
      }
      var found := Lookup(rows, id);
      if found.None? {
        return Err(NotFound);
      }
      if !UpdateRulesHold(input) {
        return Err(ValidationError);
      }
      var k := found.value;
      var q := Patch(rows[k], input);
      PatchKeepsWellFormed(rows[k], input);
      rows := rows[k := q];
      res := Ok(q);
    }

    /** `destroy`: admin only; deletes the addressed row outright and keeps
      every other row. */
    method Destroy(caller: Option<User>, id: int) returns (res: Result<()>)
      requires Valid()
      modifies this
      ensures Valid() && nextId == old(nextId)
      ensures !IsAdmin(caller) ==> res == Err(Forbidden)
      ensures IsAdmin(caller) ==> (res == Err(NotFound) <==> Lookup(old(rows), id).None?)
      ensures IsAdmin(caller) && Lookup(old(rows), id).Some? ==> res.Ok?
      ensures res.Err? ==> rows == old(rows)
      ensures res.Ok? ==>
        && IsAdmin(caller) && Lookup(old(rows), id).Some?
        && var k := Lookup(old(rows), id).value;
        && rows == old(rows)[..k] + old(rows)[k + 1..]
      ensures res.Ok? ==> forall q :: q in rows ==> q.id != id
      ensures forall q :: q in old(rows) && q.id != id ==> q in rows
    {
      if !IsAdmin(caller) {
        return Err(Forbidden);
      }
      var found := Lookup(rows, id);
      if found.None? {
        return Err(NotFound);
      }
      var k := found.value;
      RemoveRow(rows, nextId, k);
      rows := rows[..k] + rows[k + 1..];
      res := Ok(());
    }
  }
}
