/** What clients of the resolver read, in terms of what the DoH server answered. */
module DnsAnswers {
  import opened Basics
  import opened DnsWire
  import opened DnsServer
  import R = Rfc1035

  /** At step `i` handler `h` asked the DoH server for `q` and got the answers `answers`. */
  predicate AskedAt(steps: seq<Step>, i: nat, h: nat, q: Question, answers: seq<DohAnswer>) {
    && i < |steps| && WasIn(steps, i, h, Resolving(q))
    && steps[i].Resolve? && steps[i].h == h
    && steps[i].body.Body? && steps[i].body.status == 0 && steps[i].body.answers == answers
  }

  lemma ResolvedIsAsked(steps: seq<Step>, i: nat, h: nat, r: Resolution)
    requires ResolvedAt(steps, i, h, r)
    ensures i < |steps| && steps[i].Resolve? && steps[i].body.Body?
    ensures AskedAt(steps, i, h, r.q, steps[i].body.answers) && Addresses(steps[i].body.answers) == r.addrs
  {
    hide WasIn, Ttl;
  }

  /** The addresses of a reply that is no failure came from one resolve step of its question. */
  lemma AnswerWasAsked(steps: seq<Step>, r: Reply) returns (i: nat, h: nat, answers: seq<DohAnswer>)
    requires Reached(steps).Some? && r in Reached(steps).value.sent
    requires Answering(r.origin) && !r.origin.Failing?
    ensures AskedAt(steps, i, h, r.origin.q, answers) && Addresses(answers) == r.origin.addrs
  {
    var w := EveryReplyWasWritten(steps, r);
    hide Reached, WasIn, AskedAt, ResolvedAt, Before, LastPut;
    var before, q, addrs := steps[..w], r.origin.q, r.origin.addrs;
    var ttl;
    if r.origin.AnsweringFresh? {
      ttl := r.origin.ttl;
      var j;
      i, j :| StoredAt(before, i, j, r.handler, Resolution(q, addrs, ttl));
      h := r.handler;
    } else {
      var g, j;
      g, i, j, h, ttl :| FoundAt(before, g, r.handler, q, addrs, i, j, h, ttl)
                         && Before(before, g).value.clock == r.origin.lookedUp;
    }
    PrefixResolved(steps, w, i, h, Resolution(q, addrs, ttl));
    ResolvedIsAsked(steps, i, h, Resolution(q, addrs, ttl));
    answers := steps[i].body.answers;
  }

  /**
   End to end, in every interleaving: a reply to a query that decodes repeats its question and its records. A
   failure has nothing more. Any other reply then has exactly the IPv4 addresses that the DoH server answered
   to one resolve step of that question, in their order.
   */
  lemma {:induction false} DecodedRepliesAreResolved(steps: seq<Step>, r: Reply, q: R.Message)
    returns (i: nat, h: nat, answers: seq<DohAnswer>)
    requires Reached(steps).Some? && r in Reached(steps).value.sent
    requires r.handler in Reached(steps).value.handlers
             && R.OneQuestion(Reached(steps).value.handlers[r.handler].packet, q)
             && R.DecodeMessage(r.bytes).Some?
    ensures var m, packet := R.DecodeMessage(r.bytes).value, Reached(steps).value.handlers[r.handler].packet;
            && m.questions == q.questions && |q.questions| == 1 && QuestionOf(packet).Parsed?
            && QuestionOf(packet).question.name == Join(q.questions[0].qname)
            && if r.origin.Failing? then m.header.rcode == 2 && R.AllRecords(m) == R.AllRecords(q)
               else
                 && m.header.rcode == 0
                 && AskedAt(steps, i, h, QuestionOf(packet).question, answers)
                 && R.AllRecords(m)
                    == R.AllRecords(q) + R.HostRecords(q.questions[0].qname, V4s(Addresses(answers)))
  {
    hide AskedAt, R.OneQuestion, R.DecodeMessage, R.HostRecords, R.AllRecords, V4s, Addresses;
    hide QuestionOf, Response, ServFail, SentAt;
    var packet := Reached(steps).value.handlers[r.handler].packet;
    RepliesAreExact(steps);
    hide Reached;
    assert AnswersPacket(r, packet);
    R.QuestionAgrees(packet, q);
    if r.origin.Failing? {
      i, h, answers := 0, 0, [];
      R.ServFailDecodes(packet, q);
      FailureRecords(q, R.AnswerHeader(packet).(rcode := 2));
    } else {
      i, h, answers := AnswerWasAsked(steps, r);
      R.ResponseDecodes(packet, q, r.origin.addrs);
      R.SectionsHold(packet, q, r.origin.addrs);
    }
  }

  lemma FailureRecords(q: R.Message, header: R.Header)
    ensures R.AllRecords(q.(header := header)) == R.AllRecords(q)
  {
  }
}
