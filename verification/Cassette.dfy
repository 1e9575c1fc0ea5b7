/** The transport that answers from what it has been told and remembers what it could not answer. */
module Cassette {
  import opened Base


  /** A complete request body, and whether delivering it would change anything. */
  datatype Request = Request(body: string, writes: bool)

  datatype Answer = Reply(text: string) | Needed | WriteRefused

  /** What a post is answered with: writes are refused before anything is looked up. */
  function Lookup(answers: map<string, string>, r: Request): Answer {
    if r.writes then WriteRefused
    else if r.body in answers then Reply(answers[r.body])
    else Needed
  }

  /** The miss list after one more miss: first-asked order, each body once. */
  function Noted(missing: seq<string>, body: string): seq<string> {
    if body in missing then missing else missing + [body]
  }

  class Cassette {
    var answers: map<string, string>
    var missing: seq<string>

    constructor ()
      ensures answers == map[] && missing == []
    {
      answers, missing := map[], [];
    }

    method AnswerTo(body: string, reply: string)
      modifies this`answers
      ensures answers == old(answers)[body := reply]
    {
      answers := answers[body := reply];
    }

    method ForgetMisses()
      modifies this`missing
      ensures missing == []
    {
      missing := [];
    }

    method Post(r: Request) returns (a: Answer)
      requires Distinct(missing)
      modifies this`missing
      ensures a == Lookup(answers, r)
      ensures missing == if a == Needed then Noted(old(missing), r.body) else old(missing)
      ensures Distinct(missing)
    {
      if r.writes {
        return WriteRefused;
      }
      if r.body in answers {
        return Reply(answers[r.body]);
      }
      if r.body !in missing {
        missing := missing + [r.body];
      }
      return Needed;
    }
  }
}
