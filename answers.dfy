/** The Answer entity and its identity: `equals` compares ids only and
    `hashCode` is the same for every Answer. */
module Answers {
  import opened Outcomes

  /** An answer to a quiz question; `id` is null until the answer is persisted. */
  datatype Answer = Answer(id: Option<int>, contents: string, isCorrect: bool, questionId: Option<int>)

  /** What `Answer.equals(Object)` can observe of a Java reference: null,
      an Answer object at some heap address, or an object of another class. */
  datatype Object = Null | AnswerObject(address: nat, answer: Answer) | OtherObject(address: nat)

  /** `self` and `o` can live in one heap: one address holds one object. */
  predicate Coherent(self: Object, o: Object)
    requires self.AnswerObject?
  {
    match o
    case Null => true
    case AnswerObject(a, x) => a == self.address ==> x == self.answer
    case OtherObject(a) => a != self.address
  }

  /** Java's `this == o`. */
  predicate SameReference(self: Object, o: Object)
    requires self.AnswerObject?
  {
    o.AnswerObject? && o.address == self.address
  }

  /** Calling `equals` on a distinct Answer whose own id is null dereferences null. */
  predicate EqualsDefined(self: Object, o: Object)
    requires self.AnswerObject?
  {
    o.AnswerObject? && !SameReference(self, o) ==> self.answer.id.Some?
  }

  /** `Answer.equals`: true for the same reference; false for null and for
      another class; otherwise the ids decide, whatever the contents, the
      correctness flag or the question. */
  function Equals(self: Object, o: Object): (r: bool)
    requires self.AnswerObject? && Coherent(self, o) && EqualsDefined(self, o)
    ensures r <==> o.AnswerObject? && o.answer.id == self.answer.id
  {
    if SameReference(self, o) then true
    else if o.Null? || !o.AnswerObject? then false
    else o.answer.id == Some(self.answer.id.value)
  }

  /** `Answer.hashCode`: the hash of the class object, which the JVM fixes
      once per run and which is passed in as `classHash`. */
  function HashCode(self: Object, classHash: int): (r: int)
    requires self.AnswerObject?
  {
    classHash
  }

  /** An Answer equals itself, even before it has an id. */
  lemma EqualsReflexive(self: Object)
    requires self.AnswerObject?
    ensures Coherent(self, self) && EqualsDefined(self, self) && Equals(self, self)
  {
  }

  /** Two distinct Answer objects with the same non-null id are equal,
      whatever else they hold. */
  lemma SameIdEqual(a: nat, x: Answer, b: nat, y: Answer)
    requires a != b && x.id.Some? && x.id == y.id
    ensures Coherent(AnswerObject(a, x), AnswerObject(b, y))
    ensures EqualsDefined(AnswerObject(a, x), AnswerObject(b, y))
    ensures Equals(AnswerObject(a, x), AnswerObject(b, y))
  {
  }

  /** Answers with different ids are never equal, and an Answer never equals
      null or an object of another class. */
  lemma EqualsRejects(self: Object, o: Object)
    requires self.AnswerObject? && Coherent(self, o) && EqualsDefined(self, o)
    requires o.Null? || o.OtherObject? || (o.AnswerObject? && o.answer.id != self.answer.id)
    ensures !Equals(self, o)
  {
  }

  /** Equality is symmetric where both calls are defined. */
  lemma EqualsSymmetric(self: Object, o: Object)
    requires self.AnswerObject? && o.AnswerObject?
    requires Coherent(self, o) && Coherent(o, self)
    requires EqualsDefined(self, o) && EqualsDefined(o, self)
    ensures Equals(self, o) == Equals(o, self)
  {
  }

  /** Equal answers have equal hashes; indeed every two answers do. */
  lemma HashCodeConsistent(self: Object, o: Object, classHash: int)
    requires self.AnswerObject? && o.AnswerObject?
    ensures HashCode(self, classHash) == HashCode(o, classHash)
  {
  }
}
