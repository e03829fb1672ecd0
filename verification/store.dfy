/** The two database tables, held in memory as sequences. The store keeps
    each table in ascending id order, so `order_by(id).all()` is the sequence
    itself, and a counter plays the part of the question table's id sequence. */
module Records {
  import opened Basics

  datatype Question = Question(
    id: int,
    question: string,
    answer: string,
    category: int,
    difficulty: int)

  /** `kind` is the category's `type` column (a reserved word in Dafny). */
  datatype Category = Category(id: int, kind: string)

  /** Both tables, plus the next id the question table will hand out. */
  datatype Store = Store(
    questions: seq<Question>,
    categories: seq<Category>,
    nextQuestionId: int)

  /** Ids along the question table strictly increase. */
  predicate QuestionsById(qs: seq<Question>)
  {
    forall i, j :: 0 <= i < j < |qs| ==> qs[i].id < qs[j].id
  }

  /** Ids along the category table strictly increase. */
  predicate CategoriesById(cs: seq<Category>)
  {
    forall i, j :: 0 <= i < j < |cs| ==> cs[i].id < cs[j].id
  }

  /** The store invariant: both tables in primary-key order, and every
      question id positive and already handed out by the counter, which
      starts at 1 as an autoincrement key does. */
  predicate Valid(s: Store)
  {
    && QuestionsById(s.questions)
    && CategoriesById(s.categories)
    && 1 <= s.nextQuestionId
    && (forall i :: 0 <= i < |s.questions| ==> 1 <= s.questions[i].id < s.nextQuestionId)
  }

  /** `Question.query.order_by(Question.id).all()`. */
  function ById(s: Store): (qs: seq<Question>)
    requires Valid(s)
    ensures QuestionsById(qs)
    ensures multiset(qs) == multiset(s.questions)
  {
    s.questions
  }

  predicate HasQuestion(qs: seq<Question>, id: int)
  {
    exists i :: 0 <= i < |qs| && qs[i].id == id
  }

  /** `Question.query.filter(Question.id == id).one_or_none()`, as the
      position of the row found. */
  function FindQuestion(qs: seq<Question>, id: int): (r: Option<nat>)
    ensures r.None? <==> !HasQuestion(qs, id)
    ensures r.Some? ==> r.value < |qs| && qs[r.value].id == id
  {
    if |qs| == 0 then None
    else if qs[0].id == id then Some(0)
    else
      var rest := FindQuestion(qs[1..], id);
      assert forall i :: 1 <= i < |qs| ==> qs[i] == qs[1..][i - 1];
      if rest.None? then None else Some(rest.value + 1)
  }

  /** The table with the row at position `i` deleted. In an id-ordered table
      that removes exactly the question with that row's id and keeps every
      other question, in order. */
  function RemoveAt(qs: seq<Question>, i: nat): (r: seq<Question>)
    requires i < |qs|
    requires QuestionsById(qs)
    ensures QuestionsById(r)
    ensures |r| == |qs| - 1
    ensures forall q :: q in r <==> q in qs && q.id != qs[i].id
  {
    var r := qs[..i] + qs[i + 1..];
    RemoveAtFacts(qs, i, r);
    r
  }

  /** The facts `RemoveAt` promises, stated apart from it so that each proof
      obligation stays small. */
  lemma RemoveAtFacts(qs: seq<Question>, i: nat, r: seq<Question>)
    requires i < |qs|
    requires QuestionsById(qs)
    requires r == qs[..i] + qs[i + 1..]
    ensures QuestionsById(r)
    ensures forall q :: q in r <==> q in qs && q.id != qs[i].id
  {
  }

  /** The `{id: type}` dictionary built from the category rows in order; a
      later row with the same id overwrites an earlier one. */
  function CategoryMap(cs: seq<Category>): (m: map<int, string>)
    ensures m.Keys == set c | c in cs :: c.id
    ensures forall k :: k in m ==> Category(k, m[k]) in cs
  {
    if |cs| == 0 then map[]
    else
      var init := cs[..|cs| - 1];
      var last := cs[|cs| - 1];
      assert cs == init + [last];
      CategoryMap(init)[last.id := last.kind]
  }

  /** With distinct ids the dictionary has one entry per category. */
  lemma {:induction false} CategoryMapSize(cs: seq<Category>)
    requires CategoriesById(cs)
    ensures |CategoryMap(cs)| == |cs|
  {
    if |cs| > 0 {
      var init := cs[..|cs| - 1];
      var last := cs[|cs| - 1];
      assert cs == init + [last];
      CategoryMapSize(init);
      assert last.id !in CategoryMap(init);
    }
  }

  /** With distinct ids the dictionary reproduces the category table: one
      entry per category, holding that category's own type. */
  lemma CategoryMapExact(cs: seq<Category>)
    requires CategoriesById(cs)
    ensures |CategoryMap(cs)| == |cs|
    ensures forall c :: c in cs ==> c.id in CategoryMap(cs) && CategoryMap(cs)[c.id] == c.kind
  {
    CategoryMapSize(cs);
  }
}
