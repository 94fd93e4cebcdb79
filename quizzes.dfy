/** Completed-quiz assembly: resolve the user, then the advice, then each
    chosen answer in order; score the resolved answers; persist one record
    only if every lookup succeeded. */
module Quizzes {
  import opened Outcomes
  import opened Answers
  import opened Accounts

  /** A content article. Its fields other than the id are not part of this model. */
  datatype Advice = Advice(id: int)

  datatype CompletedQuizCreateRequest = CompletedQuizCreateRequest(userId: int, adviceId: int, answers: seq<int>)

  /** One quiz attempt, frozen when it is built. */
  datatype CompletedQuiz = CompletedQuiz(user: User, advice: Advice, givenAnswers: seq<Answer>, score: int)

  /** The advice and answer lookups the assembler calls (`adviceService.findOne`,
      `answerService.findById`), each over its repository. */
  class Catalog {
    var advices: map<int, Advice>
    var answers: map<int, Answer>

    /** Every entry is stored under its own id. */
    ghost predicate Valid()
      reads this
    {
      && (forall id :: id in advices ==> advices[id].id == id)
      && (forall id :: id in answers ==> answers[id].id == Some(id))
    }

    method FindAdvice(adviceId: int) returns (r: Outcome<Advice>)
      requires Valid()
      ensures r.Ok? <==> adviceId in advices
      ensures r.Ok? ==> r.value == advices[adviceId] && r.value.id == adviceId
      ensures r.Err? ==> r.error == NotFound(AdviceId(adviceId))
    {
      if adviceId in advices {
        r := Ok(advices[adviceId]);
      } else {
        r := Err(NotFound(AdviceId(adviceId)));
      }
    }

    method FindAnswer(answerId: int) returns (r: Outcome<Answer>)
      requires Valid()
      ensures r.Ok? <==> answerId in answers
      ensures r.Ok? ==> r.value == answers[answerId] && r.value.id == Some(answerId)
      ensures r.Err? ==> r.error == NotFound(AnswerId(answerId))
    {
      if answerId in answers {
        r := Ok(answers[answerId]);
      } else {
        r := Err(NotFound(AnswerId(answerId)));
      }
    }
  }

  /** The number of given answers flagged correct, each occurrence counted. */
  function Score(given: seq<Answer>): (r: nat)
    ensures r <= |given|
  {
    if given == [] then 0
    else Score(given[..|given| - 1]) + (if given[|given| - 1].isCorrect then 1 else 0)
  }

  /** The positions of the correct answers in `given`. */
  function CorrectPositions(given: seq<Answer>): (r: set<int>)
  {
    set i | 0 <= i < |given| && given[i].isCorrect
  }

  /** Extending `given` by one answer adds its position exactly when it is correct. */
  lemma CorrectPositionsStep(given: seq<Answer>)
    requires given != []
    ensures var n := |given| - 1;
      CorrectPositions(given) == CorrectPositions(given[..n]) + (if given[n].isCorrect then {n} else {})
  {
    var n := |given| - 1;
    var prefix := given[..n];
    forall i
      ensures i in CorrectPositions(given) <==> i in CorrectPositions(prefix) + (if given[n].isCorrect then {n} else {})
    {
      if 0 <= i < n {
        assert prefix[i] == given[i];
      }
    }
  }

  /** The score is the number of positions holding a correct answer, so a
      repeated correct answer counts once per occurrence. */
  lemma {:induction false} ScoreCountsOccurrences(given: seq<Answer>)
    ensures Score(given) == |CorrectPositions(given)|
  {
    if given != [] {
      var n := |given| - 1;
      ScoreCountsOccurrences(given[..n]);
      CorrectPositionsStep(given);
      assert n !in CorrectPositions(given[..n]);
    }
  }

  /** Answers A1 (correct), A2 (incorrect) and A3 (correct) given as
      [A1, A2, A3, A1] score 3: the repeated A1 counts twice. */
  lemma ScoreExample()
    ensures var a1 := Answer(Some(1), "A1", true, Some(10));
      var a2 := Answer(Some(2), "A2", false, Some(10));
      var a3 := Answer(Some(3), "A3", true, Some(11));
      Score([a1, a2, a3, a1]) == 3
  {
    var a1 := Answer(Some(1), "A1", true, Some(10));
    var a2 := Answer(Some(2), "A2", false, Some(10));
    var a3 := Answer(Some(3), "A3", true, Some(11));
    assert [a1][..0] == [];
    assert Score([a1]) == 1;
    assert [a1, a2][..1] == [a1];
    assert Score([a1, a2]) == 1;
    assert [a1, a2, a3][..2] == [a1, a2];
    assert Score([a1, a2, a3]) == 2;
    assert [a1, a2, a3, a1][..3] == [a1, a2, a3];
  }

  /** Resolves each answer id in order; the first unknown id is reported. */
  function Resolve(known: map<int, Answer>, ids: seq<int>): (r: Outcome<seq<Answer>>)
  {
    if ids == [] then Ok([])
    else
      match Resolve(known, ids[..|ids| - 1])
      case Err(e) => Err(e)
      case Ok(prefix) =>
        var last := ids[|ids| - 1];
        if last in known then Ok(prefix + [known[last]]) else Err(NotFound(AnswerId(last)))
  }

  /** `k` is the first position of `ids` whose answer is unknown. */
  predicate FirstMissing(known: map<int, Answer>, ids: seq<int>, k: int)
  {
    && 0 <= k < |ids|
    && ids[k] !in known
    && forall j :: 0 <= j < k ==> ids[j] in known
  }

  /** Resolution succeeds exactly when every id is known; it then yields,
      position by position, the answer stored under each id. */
  lemma {:induction false} ResolveSucceeds(known: map<int, Answer>, ids: seq<int>)
    ensures Resolve(known, ids).Ok? <==> forall j :: 0 <= j < |ids| ==> ids[j] in known
    ensures Resolve(known, ids).Ok? ==>
      && |Resolve(known, ids).value| == |ids|
      && forall j :: 0 <= j < |ids| ==> Resolve(known, ids).value[j] == known[ids[j]]
  {
    if ids != [] {
      var n := |ids| - 1;
      ResolveSucceeds(known, ids[..n]);
      assert forall j :: 0 <= j < n ==> ids[..n][j] == ids[j];
    }
  }

  /** Resolution fails with NotFound naming the first unknown id in list order. */
  lemma {:induction false} ResolveReportsFirstMissing(known: map<int, Answer>, ids: seq<int>, k: int)
    requires FirstMissing(known, ids, k)
    ensures Resolve(known, ids) == Err(NotFound(AnswerId(ids[k])))
  {
    var n := |ids| - 1;
    if k == n {
      ResolveSucceeds(known, ids[..n]);
      assert forall j :: 0 <= j < n ==> ids[..n][j] == ids[j];
    } else {
      assert FirstMissing(known, ids[..n], k);
      ResolveReportsFirstMissing(known, ids[..n], k);
    }
  }

  /** Some id is unknown exactly when there is a first unknown one. */
  lemma {:induction false} FirstMissingExists(known: map<int, Answer>, ids: seq<int>)
    requires exists j :: 0 <= j < |ids| && ids[j] !in known
    ensures exists k :: FirstMissing(known, ids, k)
  {
    var n := |ids| - 1;
    if forall j :: 0 <= j < n ==> ids[j] in known {
      assert FirstMissing(known, ids, n);
    } else {
      var prefix := ids[..n];
      assert exists j :: 0 <= j < |prefix| && prefix[j] !in known;
      FirstMissingExists(known, prefix);
      var k :| FirstMissing(known, prefix, k);
      assert FirstMissing(known, ids, k);
    }
  }

  /** `buildCompletedQuiz` as a specification: the user first, then the
      advice, then the answers; the score is counted over the resolved answers. */
  function Assemble(users: map<int, User>, advices: map<int, Advice>, answers: map<int, Answer>,
                    request: CompletedQuizCreateRequest): (r: Outcome<CompletedQuiz>)
  {
    if request.userId !in users then Err(NotFound(UserId(request.userId)))
    else if request.adviceId !in advices then Err(NotFound(AdviceId(request.adviceId)))
    else
      match Resolve(answers, request.answers)
      case Err(e) => Err(e)
      case Ok(given) => Ok(CompletedQuiz(users[request.userId], advices[request.adviceId], given, Score(given)))
  }

  /** An unknown user is reported before anything else is looked at. */
  lemma AssembleChecksUserFirst(users: map<int, User>, advices: map<int, Advice>, answers: map<int, Answer>,
                                request: CompletedQuizCreateRequest)
    requires request.userId !in users
    ensures Assemble(users, advices, answers, request) == Err(NotFound(UserId(request.userId)))
  {
  }

  /** With a known user, an unknown advice is reported before any answer. */
  lemma AssembleChecksAdviceSecond(users: map<int, User>, advices: map<int, Advice>, answers: map<int, Answer>,
                                   request: CompletedQuizCreateRequest)
    requires request.userId in users && request.adviceId !in advices
    ensures Assemble(users, advices, answers, request) == Err(NotFound(AdviceId(request.adviceId)))
  {
  }

  /** With a known user and advice, the first unknown answer id is reported. */
  lemma AssembleReportsFirstMissingAnswer(users: map<int, User>, advices: map<int, Advice>, answers: map<int, Answer>,
                                          request: CompletedQuizCreateRequest, k: int)
    requires request.userId in users && request.adviceId in advices
    requires FirstMissing(answers, request.answers, k)
    ensures Assemble(users, advices, answers, request) == Err(NotFound(AnswerId(request.answers[k])))
  {
    ResolveReportsFirstMissing(answers, request.answers, k);
  }

  /** Assembly succeeds exactly when the user, the advice and every answer
      exist. The record then holds the resolved user and advice, the answers
      in request order with duplicates kept, and a score between 0 and the
      number of answers that counts each correct occurrence. */
  lemma AssembleSucceeds(users: map<int, User>, advices: map<int, Advice>, answers: map<int, Answer>,
                         request: CompletedQuizCreateRequest)
    ensures var r := Assemble(users, advices, answers, request);
      && (r.Ok? <==>
            request.userId in users && request.adviceId in advices
            && forall j :: 0 <= j < |request.answers| ==> request.answers[j] in answers)
      && (r.Ok? ==>
            && r.value.user == users[request.userId]
            && r.value.advice == advices[request.adviceId]
            && |r.value.givenAnswers| == |request.answers|
            && (forall j :: 0 <= j < |request.answers| ==> r.value.givenAnswers[j] == answers[request.answers[j]])
            && r.value.score == |CorrectPositions(r.value.givenAnswers)|
            && 0 <= r.value.score <= |request.answers|)
  {
    ResolveSucceeds(answers, request.answers);
    var r := Resolve(answers, request.answers);
    if r.Ok? {
      ScoreCountsOccurrences(r.value);
    }
  }

  /** Every failure of assembly is a NotFound. */
  lemma {:induction false} AssembleFailsOnlyNotFound(users: map<int, User>, advices: map<int, Advice>,
                                                     answers: map<int, Answer>, request: CompletedQuizCreateRequest)
    ensures Assemble(users, advices, answers, request).Err? ==> Assemble(users, advices, answers, request).error.NotFound?
  {
    if request.userId in users && request.adviceId in advices && Resolve(answers, request.answers).Err? {
      var ids := request.answers;
      ResolveSucceeds(answers, ids);
      FirstMissingExists(answers, ids);
      var k :| FirstMissing(answers, ids, k);
      ResolveReportsFirstMissing(answers, ids, k);
    }
  }

  class CompletedQuizService {
    var quizzes: map<int, CompletedQuiz>
    var nextId: int

    /** Every stored record sits below the next id to hand out. */
    ghost predicate Valid()
      reads this
    {
      forall id :: id in quizzes ==> id < nextId
    }

    constructor ()
      ensures Valid() && quizzes == map[]
    {
      quizzes := map[];
      nextId := 1;
    }

    /** Resolves the user, the advice and each answer in order, then scores. */
    method BuildCompletedQuiz(directory: UserService, catalog: Catalog, request: CompletedQuizCreateRequest)
      returns (r: Outcome<CompletedQuiz>)
      requires directory.Valid() && catalog.Valid()
      ensures r == Assemble(directory.users, catalog.advices, catalog.answers, request)
    {
      var user := directory.FindById(request.userId);
      if user.Err? {
        return Err(user.error);
      }
      var advice := catalog.FindAdvice(request.adviceId);
      if advice.Err? {
        return Err(advice.error);
      }
      var ids := request.answers;
      var given: seq<Answer> := [];
      var i := 0;
      while i < |ids|
        invariant 0 <= i <= |ids|
        invariant Resolve(catalog.answers, ids[..i]) == Ok(given)
      {
        var answer := catalog.FindAnswer(ids[i]);
        if answer.Err? {
          ResolveSucceeds(catalog.answers, ids[..i]);
          assert forall j :: 0 <= j < i ==> ids[..i][j] == ids[j];
          ResolveReportsFirstMissing(catalog.answers, ids, i);
          return Err(answer.error);
        }
        assert ids[..i + 1][..i] == ids[..i];
        given := given + [answer.value];
        i := i + 1;
      }
      assert ids[..i] == ids;
      r := Ok(CompletedQuiz(user.value, advice.value, given, Score(given)));
    }

    /** Persists the assembled record under a fresh id; on any NotFound the
        store is left as it was. Returns the new record's id. */
    method Save(directory: UserService, catalog: Catalog, request: CompletedQuizCreateRequest)
      returns (r: Outcome<int>)
      requires Valid() && directory.Valid() && catalog.Valid()
      modifies this
      ensures Valid()
      ensures var built := Assemble(directory.users, catalog.advices, catalog.answers, request);
        if built.Ok? then
          && r == Ok(old(nextId))
          && old(nextId) !in old(quizzes)
          && quizzes == old(quizzes)[old(nextId) := built.value]
          && nextId == old(nextId) + 1
        else
          && r == Err(built.error)
          && quizzes == old(quizzes)
          && nextId == old(nextId)
    {
      var built := BuildCompletedQuiz(directory, catalog, request);
      if built.Err? {
        return Err(built.error);
      }
      quizzes := quizzes[nextId := built.value];
      r := Ok(nextId);
      nextId := nextId + 1;
    }

    /** Removes the record with id `quizId` and no other; an unknown id is
        reported as NotFound, as `deleteById` throws for it. */
    method Delete(quizId: int) returns (r: Outcome<()>)
      requires Valid()
      modifies this
      ensures Valid() && nextId == old(nextId)
      ensures r.Ok? <==> quizId in old(quizzes)
      ensures r.Ok? ==> quizzes == old(quizzes) - {quizId}
      ensures r.Err? ==> r.error == NotFound(CompletedQuizId(quizId)) && quizzes == old(quizzes)
    {
      if quizId !in quizzes {
        return Err(NotFound(CompletedQuizId(quizId)));
      }
      quizzes := quizzes - {quizId};
      r := Ok(());
    }
  }
}
