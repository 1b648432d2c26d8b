/**
 The SMTP side: accepting recipients, storing a received mail once for each of them or not at all,
 and the agreement of the stored domains with the ones the API checks.
 */
module SmtpServer {
  import opened Wrappers
  import opened Text
  import opened BlacklistRows
  import opened Blacklist
  import opened MailParser

  const MAX_RECIPIENTS: nat := 10

  datatype Reply =
    | Ok
    | DomainNotAccepted
    | TooManyRecipients
    | MessageTooLarge
    | NoSuchMailbox
    | TemporarilyUnavailable
    | MessageRejected
    | Accepted
    | ServerError

  /** One of the names, up to case. */
  predicate Among(domain: string, names: seq<string>) {
    exists i :: 0 <= i < |names| && Lower(names[i]) == domain
  }

  /// Recipients

  /** The recipients and the reply after one RCPT command. */
  function RcptStep(domains: seq<string>, rcpts: seq<string>, address: string): (seq<string>, Reply) {
    if !Among(Lower(Domain(address)), domains) then (rcpts, DomainNotAccepted)
    else if |rcpts| >= MAX_RECIPIENTS then (rcpts, TooManyRecipients)
    else (rcpts + [Lower(address)], Ok)
  }

  /** A recipient the server has accepted: in lower case, of a configured domain. */
  predicate AcceptedRcpt(domains: seq<string>, rcpt: string) {
    Lower(rcpt) == rcpt && Among(Domain(rcpt), domains)
  }

  ghost predicate GoodRcpts(domains: seq<string>, rcpts: seq<string>) {
    && |rcpts| <= MAX_RECIPIENTS
    && forall i :: 0 <= i < |rcpts| ==> AcceptedRcpt(domains, rcpts[i])
  }

  /** RCPT keeps the recipients good; it refuses exactly the foreign domains, and beyond the limit
      everyone. */
  lemma RcptKeepsGood(domains: seq<string>, rcpts: seq<string>, address: string)
    requires GoodRcpts(domains, rcpts)
    ensures GoodRcpts(domains, RcptStep(domains, rcpts, address).0)
    ensures RcptStep(domains, rcpts, address).1 == Ok <==>
            Among(Domain(Lower(address)), domains) && |rcpts| < MAX_RECIPIENTS
  {
    DomainOfLower(address);
    LowerTwice(address);
  }

  /// Messages

  /** One parsed mail per recipient, or the error of parsing it. */
  ghost function ForEach(mail: Mail, sender: string, rcpts: seq<string>, n: nat, clean: Cleaner)
    : Result<seq<ParsedEmail>, ParseError>
    requires n <= |rcpts|
  {
    if n == 0 then Success([])
    else
      AndThen(ForEach(mail, sender, rcpts, n - 1, clean), Parsed(mail, sender, Lower(rcpts[n - 1]), clean))
  }

  ghost function AndThen(before: Result<seq<ParsedEmail>, ParseError>, last: Result<ParsedEmail, ParseError>)
    : Result<seq<ParsedEmail>, ParseError>
  {
    if before.Failure? then before
    else if last.Failure? then Failure(last.error)
    else Success(before.value + [last.value])
  }

  lemma ForEachNext(mail: Mail, sender: string, rcpts: seq<string>, n: nat, clean: Cleaner,
                    before: Result<seq<ParsedEmail>, ParseError>, last: Result<ParsedEmail, ParseError>)
    requires n < |rcpts| && before == ForEach(mail, sender, rcpts, n, clean)
    requires last == Parsed(mail, sender, Lower(rcpts[n]), clean)
    ensures ForEach(mail, sender, rcpts, n + 1, clean) == AndThen(before, last)
  {
  }

  /** When all recipients' mails parse, there is one message for each, in order. */
  lemma {:induction false} OneMessageEach(mail: Mail, sender: string, rcpts: seq<string>, n: nat, clean: Cleaner)
    requires n <= |rcpts| && ForEach(mail, sender, rcpts, n, clean).Success?
    ensures var messages := ForEach(mail, sender, rcpts, n, clean).value;
            && |messages| == n
            && forall i :: 0 <= i < n ==> IsParsed(mail, sender, Lower(rcpts[i]), clean, messages[i])
  {
    if n > 0 {
      OneMessageEach(mail, sender, rcpts, n - 1, clean);
      var before, last := ForEach(mail, sender, rcpts, n - 1, clean), Parsed(mail, sender, Lower(rcpts[n - 1]), clean);
      assert ForEach(mail, sender, rcpts, n, clean) == AndThen(before, last) == Success(before.value + [last.value]);
      ParsedMeaning(mail, sender, Lower(rcpts[n - 1]), clean);
    }
  }

  /** Parsing fails exactly if there is a recipient and the bodies cannot be decoded. */
  lemma {:induction false} RejectedExactly(mail: Mail, sender: string, rcpts: seq<string>, n: nat, clean: Cleaner)
    requires n <= |rcpts|
    ensures ForEach(mail, sender, rcpts, n, clean).Failure? <==> n > 0 && BodiesOf(mail.root, clean).Failure?
  {
    if n > 0 {
      RejectedExactly(mail, sender, rcpts, n - 1, clean);
      ParsedMeaning(mail, sender, Lower(rcpts[n - 1]), clean);
    }
  }

  lemma {:induction false} FailureStays(mail: Mail, sender: string, rcpts: seq<string>, m: nat, n: nat, clean: Cleaner)
    requires m <= n <= |rcpts| && ForEach(mail, sender, rcpts, m, clean).Failure?
    ensures ForEach(mail, sender, rcpts, n, clean) == ForEach(mail, sender, rcpts, m, clean)
    decreases n
  {
    if m < n {
      FailureStays(mail, sender, rcpts, m, n - 1, clean);
    }
  }

  /// Access from the API

  /** A key without domains, or with an empty list, opens every inbox; any other only those of its
      domains. */
  predicate VerifyDomainAccess(email: string, domains: Option<seq<string>>) {
    if domains.None? || domains.value == [] then true
    else
      var domain := if '@' in email then Lower(AfterLastAt(email)) else "";
      Among(domain, domains.value)
  }

  /** An unrestricted key opens every inbox. */
  lemma UnrestrictedAccess(email: string)
    ensures VerifyDomainAccess(email, None) && VerifyDomainAccess(email, Some([]))
  {
  }

  /** A restricted one opens exactly the inboxes of its domains, up to case. */
  lemma RestrictedAccess(local: string, domain: string, names: seq<string>)
    requires '@' !in domain && names != []
    ensures VerifyDomainAccess(local + "@" + domain, Some(names)) <==>
            exists i :: 0 <= i < |names| && Lower(names[i]) == Lower(domain)
  {
    SplitAtLast(local, domain);
  }

  /** A stored message fits its recipient: lower case, its domain, a configured one. */
  predicate Agrees(domains: seq<string>, m: ParsedEmail) {
    && Lower(m.recipient) == m.recipient && m.domain == Domain(m.recipient)
    && Among(m.domain, domains)
  }

  /** For a message that agrees, the domain the API derives from the recipient is the stored one:
      a restricted key opens it exactly when the stored domain is one of the key's. */
  lemma AccessIsByStoredDomain(domains: seq<string>, m: ParsedEmail, allowed: seq<string>)
    requires Agrees(domains, m) && allowed != []
    ensures VerifyDomainAccess(m.recipient, Some(allowed)) <==> Among(m.domain, allowed)
  {
    DomainOfLower(m.recipient);
    LowerTwice(m.recipient);
  }

  /// The handler

  class Envelope {
    var mailFrom: Option<string>
    var rcptTos: seq<string>

    constructor ()
      ensures mailFrom == None && rcptTos == []
    {
      mailFrom, rcptTos := None, [];
    }
  }

  class TempInboxHandler {
    const domains: seq<string>
    const maxEmailSize: nat
    const blacklist: Blacklist
    /** The messages committed so far. */
    var stored: seq<ParsedEmail>

    constructor (domains: seq<string>, maxEmailSize: nat, blacklist: Blacklist)
      ensures this.domains == domains && this.maxEmailSize == maxEmailSize && this.blacklist == blacklist
      ensures stored == []
    {
      this.domains, this.maxEmailSize, this.blacklist := domains, maxEmailSize, blacklist;
      stored := [];
    }

    function Settings(clean: Cleaner): Config {
      Config(domains, maxEmailSize, clean)
    }

    method HandleRcpt(envelope: Envelope, address: string) returns (reply: Reply)
      modifies envelope`rcptTos
      ensures (envelope.rcptTos, reply) == RcptStep(domains, old(envelope.rcptTos), address)
      ensures reply == DomainNotAccepted <==>
              forall i :: 0 <= i < |domains| ==> Lower(domains[i]) != Lower(Domain(address))
      ensures reply == Ok ==> |old(envelope.rcptTos)| < 10
      ensures reply == Ok || reply == DomainNotAccepted ||
              (reply == TooManyRecipients && 10 <= |old(envelope.rcptTos)|)
      ensures envelope.rcptTos == old(envelope.rcptTos) + if reply == Ok then [Lower(address)] else []
    {
      var domain := if '@' in address then AfterLastAt(address) else "";
      if !Among(Lower(domain), domains) {
        return DomainNotAccepted;
      }
      if |envelope.rcptTos| >= MAX_RECIPIENTS {
        return TooManyRecipients;
      }
      envelope.rcptTos := envelope.rcptTos + [Lower(address)];
      return Ok;
    }

    /** The messages to add, one for each recipient, up to the first that cannot be parsed. */
    static method ParseForEach(rcpts: seq<string>, mail: Mail, sender: string, clean: Cleaner)
        returns (pending: Result<seq<ParsedEmail>, ParseError>)
      ensures pending == ForEach(mail, sender, rcpts, |rcpts|, clean)
    {
      var messages: seq<ParsedEmail> := [];
      for i := 0 to |rcpts|
        invariant ForEach(mail, sender, rcpts, i, clean) == Success(messages)
      {
        var parsed := ParseEmail(mail, sender, Lower(rcpts[i]), clean);
        ForEachNext(mail, sender, rcpts, i, clean, Success(messages), parsed);
        if parsed.Failure? {
          FailureStays(mail, sender, rcpts, i + 1, |rcpts|, clean);
          return Failure(parsed.error);
        }
        messages := messages + [parsed.value];
      }
      return Success(messages);
    }

    /** Stores one message for each recipient when the mail is accepted, and otherwise none:
        too large, blocked sender, a mail that cannot be parsed, or a failed commit. */
    method HandleData(envelope: Envelope, mail: Mail, glob: Glob, clean: Cleaner, at: real, commits: bool)
        returns (reply: Reply)
      requires blacklist.Valid()
      modifies this`stored, blacklist`rows, blacklist`cache
      ensures blacklist.Valid()
      ensures var sender := if envelope.mailFrom.Some? then envelope.mailFrom.value else "";
              var blocked := Blocks(old(blacklist.rows), sender, glob);
              var messages := ForEach(mail, sender, envelope.rcptTos, |envelope.rcptTos|, clean);
              && (reply == MessageTooLarge <==> mail.size > maxEmailSize)
              && (mail.size <= maxEmailSize ==>
                   && (blocked <==> reply == NoSuchMailbox || reply == TemporarilyUnavailable)
                   && (reply == NoSuchMailbox ==> BlockedAs(old(blacklist.rows), blacklist.rows, sender, glob, Hard))
                   && (reply == TemporarilyUnavailable ==>
                        BlockedAs(old(blacklist.rows), blacklist.rows, sender, glob, Soft))
                   && (!blocked ==>
                        reply == if messages.Failure? then MessageRejected
                                 else if commits then Accepted
                                 else ServerError))
              && (reply == Accepted ==> stored == old(stored) + messages.value)
              && (reply != Accepted ==> stored == old(stored))
              && (reply != NoSuchMailbox && reply != TemporarilyUnavailable ==> blacklist.rows == old(blacklist.rows))
              && exists verdict: Option<BlockType> ::
                   && (mail.size <= maxEmailSize ==>
                        && (verdict.Some? <==> blocked)
                        && (verdict.Some? ==>
                             BlockedAs(old(blacklist.rows), blacklist.rows, sender, glob, verdict.value)))
                   && reply == DataReply(Settings(clean), envelope.rcptTos, Data(mail, sender, verdict, commits))
    {
      var sender := if envelope.mailFrom.Some? then envelope.mailFrom.value else "";
      if mail.size > maxEmailSize {
        assert DataReply(Settings(clean), envelope.rcptTos, Data(mail, sender, None, commits)) == MessageTooLarge;
        return MessageTooLarge;
      }
      var blockType := blacklist.CheckBlacklist(sender, glob, at);
      ghost var expected := DataReply(Settings(clean), envelope.rcptTos, Data(mail, sender, blockType, commits));
      if blockType == Some(Hard) {
        return NoSuchMailbox;
      }
      if blockType == Some(Soft) {
        return TemporarilyUnavailable;
      }
      var pending := ParseForEach(envelope.rcptTos, mail, sender, clean);
      if pending.Failure? {
        return MessageRejected;
      }
      if !commits {
        return ServerError;
      }
      stored := stored + pending.value;
      return Accepted;
    }
  }

  /// Sessions

  /** A command of a session.  A DATA command comes with what the rest of the system decides: the
      verdict on the sender, and whether the commit succeeds. */
  datatype Command =
    | Rcpt(address: string)
    | Reset
    | Data(mail: Mail, sender: string, blocked: Option<BlockType>, commits: bool)

  /** The recipients held, the messages stored, and the replies to the commands so far. */
  datatype Session = Session(rcpts: seq<string>, stored: seq<ParsedEmail>, replies: seq<Reply>)

  datatype Config = Config(domains: seq<string>, maxEmailSize: nat, clean: Cleaner)

  /** The reply to a DATA command. */
  ghost function DataReply(c: Config, rcpts: seq<string>, command: Command): Reply
    requires command.Data?
  {
    if command.mail.size > c.maxEmailSize then MessageTooLarge
    else if command.blocked == Some(Hard) then NoSuchMailbox
    else if command.blocked == Some(Soft) then TemporarilyUnavailable
    else if ForEach(command.mail, command.sender, rcpts, |rcpts|, c.clean).Failure? then MessageRejected
    else if command.commits then Accepted
    else ServerError
  }

  /** Each reply to DATA and its cause; the causes are tried in this order. */
  lemma DataReplyMeaning(c: Config, rcpts: seq<string>, command: Command)
    requires command.Data?
    ensures var Data(mail, _, blocked, commits) := command;
            var reply := DataReply(c, rcpts, command);
            var undecodable := rcpts != [] && BodiesOf(mail.root, c.clean).Failure?;
            if mail.size > c.maxEmailSize then reply == MessageTooLarge
            else if blocked.Some? then reply == if blocked.value.Hard? then NoSuchMailbox else TemporarilyUnavailable
            else if undecodable then reply == MessageRejected
            else reply == if commits then Accepted else ServerError
  {
    RejectedExactly(command.mail, command.sender, rcpts, |rcpts|, c.clean);
  }

  /** The messages a command adds: those of an accepted DATA command. */
  ghost function NewMessages(c: Config, rcpts: seq<string>, command: Command): seq<ParsedEmail> {
    if command.Data? && DataReply(c, rcpts, command) == Accepted then
      ForEach(command.mail, command.sender, rcpts, |rcpts|, c.clean).value
    else []
  }

  /** What one command does. */
  ghost function Next(c: Config, s: Session, command: Command): Session {
    match command
    case Rcpt(address) =>
      var (rcpts, reply) := RcptStep(c.domains, s.rcpts, address);
      Session(rcpts, s.stored, s.replies + [reply])
    case Reset => Session([], s.stored, s.replies + [Ok])
    case Data(_, _, _, _) =>
      Session(s.rcpts, s.stored + NewMessages(c, s.rcpts, command), s.replies + [DataReply(c, s.rcpts, command)])
  }

  ghost function After(c: Config, commands: seq<Command>): Session {
    if commands == [] then Session([], [], [])
    else Next(c, After(c, commands[..|commands| - 1]), commands[|commands| - 1])
  }

  /** A message for this recipient, with the sender, the size and the bodies of a DATA command. */
  ghost predicate IsFor(c: Config, command: Command, rcpt: string, m: ParsedEmail)
    requires command.Data?
  {
    Lower(rcpt) == rcpt && IsParsed(command.mail, command.sender, rcpt, c.clean, m)
  }

  /** Recipients are held in lower case already, so their messages go to them as they are: one for
      each, in their order. */
  lemma NewMessagesInOrder(c: Config, rcpts: seq<string>, command: Command)
    requires GoodRcpts(c.domains, rcpts) && command.Data? && DataReply(c, rcpts, command) == Accepted
    ensures var news := NewMessages(c, rcpts, command);
            |news| == |rcpts| && forall i :: 0 <= i < |news| ==> IsFor(c, command, rcpts[i], news[i])
  {
    var news := NewMessages(c, rcpts, command);
    OneMessageEach(command.mail, command.sender, rcpts, |rcpts|, c.clean);
    forall i | 0 <= i < |news|
      ensures IsFor(c, command, rcpts[i], news[i])
    {
      assert AcceptedRcpt(c.domains, rcpts[i]);
      assert IsParsed(command.mail, command.sender, Lower(rcpts[i]), c.clean, news[i]);
    }
  }

  lemma NewMessagesAgree(c: Config, rcpts: seq<string>, command: Command)
    requires GoodRcpts(c.domains, rcpts)
    ensures forall m :: m in NewMessages(c, rcpts, command) ==> Agrees(c.domains, m) && m.recipient in rcpts
  {
    if command.Data? && DataReply(c, rcpts, command) == Accepted {
      NewMessagesInOrder(c, rcpts, command);
      var news := NewMessages(c, rcpts, command);
      forall i | 0 <= i < |news|
        ensures Agrees(c.domains, news[i]) && news[i].recipient in rcpts
      {
        assert AcceptedRcpt(c.domains, rcpts[i]) && IsFor(c, command, rcpts[i], news[i]);
      }
    }
  }

  /** Over any session at most ten recipients are held, all of configured domains, and every
      message stored agrees with its recipient. */
  lemma {:induction false} SessionInvariant(c: Config, commands: seq<Command>)
    ensures var s := After(c, commands);
            && GoodRcpts(c.domains, s.rcpts) && |s.rcpts| <= 10
            && |s.replies| == |commands|
            && forall m :: m in s.stored ==> Agrees(c.domains, m)
  {
    if commands != [] {
      var before, command := commands[..|commands| - 1], commands[|commands| - 1];
      SessionInvariant(c, before);
      var s := After(c, before);
      match command
      case Rcpt(address) => RcptKeepsGood(c.domains, s.rcpts, address);
      case Reset =>
      case Data(_, _, _, _) => NewMessagesAgree(c, s.rcpts, command);
    }
  }

  /** Some RCPT command of the session gave this address, in some case, and was answered 250. */
  ghost predicate WasAccepted(c: Config, commands: seq<Command>, rcpt: string) {
    exists i :: 0 <= i < |commands| && AcceptedAt(c, commands, i, rcpt)
  }

  ghost predicate AcceptedAt(c: Config, commands: seq<Command>, i: nat, rcpt: string)
    requires i < |commands|
  {
    && commands[i].Rcpt? && Lower(commands[i].address) == rcpt
    && RcptStep(c.domains, After(c, commands[..i]).rcpts, commands[i].address).1 == Ok
  }

  lemma AcceptedStays(c: Config, commands: seq<Command>, n: nat, rcpt: string)
    requires n <= |commands| && WasAccepted(c, commands[..n], rcpt)
    ensures WasAccepted(c, commands, rcpt)
  {
    var i :| 0 <= i < n && AcceptedAt(c, commands[..n], i, rcpt);
    assert commands[..n][..i] == commands[..i];
    assert AcceptedAt(c, commands, i, rcpt);
  }

  /** Every recipient held, and every recipient of a stored message, was accepted by an RCPT
      command of the session. */
  lemma {:induction false} OnlyAcceptedRecipients(c: Config, commands: seq<Command>)
    ensures forall r :: r in After(c, commands).rcpts ==> WasAccepted(c, commands, r)
    ensures forall m :: m in After(c, commands).stored ==> WasAccepted(c, commands, m.recipient)
  {
    if commands != [] {
      var n := |commands| - 1;
      OnlyAcceptedRecipients(c, commands[..n]);
      SessionInvariant(c, commands[..n]);
      forall r | WasAccepted(c, commands[..n], r)
        ensures WasAccepted(c, commands, r)
      {
        AcceptedStays(c, commands, n, r);
      }
      if commands[n].Rcpt? && RcptStep(c.domains, After(c, commands[..n]).rcpts, commands[n].address).1 == Ok {
        assert AcceptedAt(c, commands, n, Lower(commands[n].address));
      }
      NextRecipients(c, After(c, commands[..n]), commands[n]);
    }
  }

  /** The recipients of new messages are held, and a new recipient is the one accepted. */
  lemma NextRecipients(c: Config, s: Session, command: Command)
    requires GoodRcpts(c.domains, s.rcpts)
    ensures forall m :: m in Next(c, s, command).stored ==> m in s.stored || m.recipient in s.rcpts
    ensures forall r :: r in Next(c, s, command).rcpts ==>
              || r in s.rcpts
              || (command.Rcpt? && RcptStep(c.domains, s.rcpts, command.address).1 == Ok && r == Lower(command.address))
  {
    NewMessagesAgree(c, s.rcpts, command);
  }

  /** From the RCPT command to the API: a stored message goes back to an address that was accepted
      for its domain; that domain, in lower case, is the stored one; and it is the one by which a
      restricted key is let in. */
  lemma DomainAgreesEndToEnd(c: Config, commands: seq<Command>, m: ParsedEmail, allowed: seq<string>)
    requires m in After(c, commands).stored && allowed != []
    ensures exists i :: 0 <= i < |commands| && AcceptedAt(c, commands, i, m.recipient)
                        && m.domain == Lower(Domain(commands[i].address)) && Among(m.domain, c.domains)
    ensures VerifyDomainAccess(m.recipient, Some(allowed)) <==> Among(m.domain, allowed)
  {
    SessionInvariant(c, commands);
    OnlyAcceptedRecipients(c, commands);
    AccessIsByStoredDomain(c.domains, m, allowed);
    var i :| 0 <= i < |commands| && AcceptedAt(c, commands, i, m.recipient);
    DomainOfLower(commands[i].address);
  }

  /** `after` has one more message than `before` for each of these recipients, in their order. */
  ghost predicate StoresFor(
    c: Config, command: Command, rcpts: seq<string>, before: seq<ParsedEmail>, after: seq<ParsedEmail>)
    requires command.Data?
  {
    && |after| == |before| + |rcpts| && before <= after
    && forall i :: 0 <= i < |rcpts| ==> IsFor(c, command, rcpts[i], after[|before| + i])
  }

  /** A DATA command that is answered 250 appends one message for each recipient held, in their
      order, with its sender, size and bodies; any other reply, and any other command, stores nothing. */
  lemma EachDataStoresItsRecipients(c: Config, commands: seq<Command>, n: nat)
    requires n < |commands|
    ensures var command, s, t := commands[n], After(c, commands[..n]), After(c, commands[..n + 1]);
            && |t.replies| == n + 1
            && (command.Data? && t.replies[n] == Accepted ==> StoresFor(c, command, s.rcpts, s.stored, t.stored))
            && (!command.Data? || t.replies[n] != Accepted ==> t.stored == s.stored)
  {
    assert commands[..n + 1][..n] == commands[..n];
    SessionInvariant(c, commands[..n]);
    NextStores(c, After(c, commands[..n]), commands[n]);
  }

  lemma NextStores(c: Config, s: Session, command: Command)
    requires GoodRcpts(c.domains, s.rcpts)
    ensures var t := Next(c, s, command);
            && |t.replies| == |s.replies| + 1
            && (command.Data? && t.replies[|s.replies|] == Accepted ==>
                  StoresFor(c, command, s.rcpts, s.stored, t.stored))
            && (!command.Data? || t.replies[|s.replies|] != Accepted ==> t.stored == s.stored)
  {
    if command.Data? && DataReply(c, s.rcpts, command) == Accepted {
      NewMessagesInOrder(c, s.rcpts, command);
      StoresAppended(c, command, s.rcpts, s.stored, NewMessages(c, s.rcpts, command));
    }
  }

  lemma StoresAppended(
    c: Config, command: Command, rcpts: seq<string>, before: seq<ParsedEmail>, news: seq<ParsedEmail>)
    requires command.Data? && |news| == |rcpts|
    requires forall i :: 0 <= i < |news| ==> IsFor(c, command, rcpts[i], news[i])
    ensures StoresFor(c, command, rcpts, before, before + news)
  {
    forall i | 0 <= i < |rcpts|
      ensures IsFor(c, command, rcpts[i], (before + news)[|before| + i])
    {
      assert (before + news)[|before| + i] == news[i];
    }
  }

  /** What the session answered and stored up to a command stays. */
  lemma {:induction false} SessionOnlyGrows(c: Config, commands: seq<Command>, n: nat)
    requires n <= |commands|
    ensures After(c, commands[..n]).replies <= After(c, commands).replies
    ensures After(c, commands[..n]).stored <= After(c, commands).stored
  {
    if n < |commands| {
      var before := commands[..|commands| - 1];
      SessionOnlyGrows(c, before, n);
      assert before[..n] == commands[..n];
    } else {
      assert commands[..n] == commands;
    }
  }

  function Recipients(messages: seq<ParsedEmail>): (r: seq<string>)
    ensures |r| == |messages| && forall i :: 0 <= i < |r| ==> r[i] == messages[i].recipient
  {
    seq(|messages|, i requires 0 <= i < |messages| => messages[i].recipient)
  }

  /** The recipients a session should have stored messages for: those held at each DATA command
      that was answered 250, in order. */
  ghost function Owed(c: Config, commands: seq<Command>): seq<string> {
    if commands == [] then []
    else
      var before, command := commands[..|commands| - 1], commands[|commands| - 1];
      var s := After(c, before);
      Owed(c, before) + if command.Data? && DataReply(c, s.rcpts, command) == Accepted then s.rcpts else []
  }

  lemma RecipientsAppend(a: seq<ParsedEmail>, b: seq<ParsedEmail>)
    ensures Recipients(a + b) == Recipients(a) + Recipients(b)
  {
  }

  lemma NewMessagesRecipients(c: Config, rcpts: seq<string>, command: Command)
    requires GoodRcpts(c.domains, rcpts)
    ensures Recipients(NewMessages(c, rcpts, command)) ==
            if command.Data? && DataReply(c, rcpts, command) == Accepted then rcpts else []
  {
    if command.Data? && DataReply(c, rcpts, command) == Accepted {
      NewMessagesInOrder(c, rcpts, command);
      var news := NewMessages(c, rcpts, command);
      assert forall i :: 0 <= i < |news| ==> IsFor(c, command, rcpts[i], news[i]);
      assert Recipients(news) == rcpts;
    }
  }

  /** Over any session the messages stored are exactly those, one after the other. */
  lemma {:induction false} SessionStoresWhatItOwes(c: Config, commands: seq<Command>)
    ensures Recipients(After(c, commands).stored) == Owed(c, commands)
  {
    if commands != [] {
      var before, command := commands[..|commands| - 1], commands[|commands| - 1];
      SessionStoresWhatItOwes(c, before);
      SessionInvariant(c, before);
      var s := After(c, before);
      NewMessagesRecipients(c, s.rcpts, command);
      RecipientsAppend(s.stored, NewMessages(c, s.rcpts, command));
      assert s.stored + [] == s.stored;
    }
  }

  /// What the client was told and what is stored

  /** What the replies say is held: the addresses accepted since the last reset, in lower case. */
  function AcceptedSinceReset(commands: seq<Command>, replies: seq<Reply>): seq<string>
    requires |commands| == |replies|
  {
    if commands == [] then []
    else
      var n := |commands| - 1;
      var before := AcceptedSinceReset(commands[..n], replies[..n]);
      match commands[n]
      case Rcpt(address) => if replies[n] == Ok then before + [Lower(address)] else before
      case Reset => []
      case Data(_, _, _, _) => before
  }

  /** The recipients held are exactly those, in order and with multiplicity. */
  lemma {:induction false} HeldAsReplied(c: Config, commands: seq<Command>)
    ensures |After(c, commands).replies| == |commands|
    ensures After(c, commands).rcpts == AcceptedSinceReset(commands, After(c, commands).replies)
  {
    if commands != [] {
      var n := |commands| - 1;
      var s, t := After(c, commands[..n]), After(c, commands);
      HeldAsReplied(c, commands[..n]);
      NextHeld(c, s, commands[n]);
      assert t.replies[..n] == s.replies;
    }
  }

  lemma NextHeld(c: Config, s: Session, command: Command)
    ensures var t := Next(c, s, command);
            && |t.replies| == |s.replies| + 1 && t.replies[..|s.replies|] == s.replies
            && t.rcpts == match command
                          case Rcpt(address) =>
                            if t.replies[|s.replies|] == Ok then s.rcpts + [Lower(address)] else s.rcpts
                          case Reset => []
                          case Data(_, _, _, _) => s.rcpts
  {
  }

  lemma AcceptedIsHeld(c: Config, commands: seq<Command>, i: nat)
    requires i < |commands| && commands[i].Rcpt? && |After(c, commands).replies| == |commands|
    requires After(c, commands).replies[i] == Ok
    requires forall k :: i < k < |commands| ==> !commands[k].Reset?
    ensures Lower(commands[i].address) in After(c, commands).rcpts
  {
    HeldAsReplied(c, commands);
    AcceptedIsListed(commands, After(c, commands).replies, i);
  }

  lemma {:induction false} AcceptedIsListed(commands: seq<Command>, replies: seq<Reply>, i: nat)
    requires |commands| == |replies| && i < |commands| && commands[i].Rcpt? && replies[i] == Ok
    requires forall k :: i < k < |commands| ==> !commands[k].Reset?
    ensures Lower(commands[i].address) in AcceptedSinceReset(commands, replies)
  {
    var n := |commands| - 1;
    if i < n {
      AcceptedIsListed(commands[..n], replies[..n], i);
    }
  }

  /** No mail is lost: if a recipient was accepted and, with no reset since, a DATA command is
      answered 250, a message for that recipient is among those this command stores. */
  lemma AcceptedRecipientGetsMessage(c: Config, commands: seq<Command>, i: nat, n: nat)
    requires i < n < |commands| && |After(c, commands).replies| == |commands|
    requires commands[i].Rcpt? && After(c, commands).replies[i] == Ok
    requires forall k :: i < k < n ==> !commands[k].Reset?
    requires commands[n].Data? && After(c, commands).replies[n] == Accepted
    ensures var before, after := After(c, commands[..n]).stored, After(c, commands[..n + 1]).stored;
            && before <= after <= After(c, commands).stored
            && exists k :: |before| <= k < |after| && after[k].recipient == Lower(commands[i].address)
  {
    SessionSoFar(c, commands, n);
    SessionSoFar(c, commands, n + 1);
    AcceptedIsHeld(c, commands[..n], i);
    StoredAtData(c, commands, n, Lower(commands[i].address));
  }

  lemma SessionSoFar(c: Config, commands: seq<Command>, n: nat)
    requires n <= |commands|
    ensures var s, all := After(c, commands[..n]), After(c, commands);
            && |s.replies| == n && s.stored <= all.stored
            && |all.replies| == |commands| && forall j :: 0 <= j < n ==> s.replies[j] == all.replies[j]
  {
    SessionOnlyGrows(c, commands, n);
    HeldAsReplied(c, commands[..n]);
    HeldAsReplied(c, commands);
  }

  lemma StoredAtData(c: Config, commands: seq<Command>, n: nat, rcpt: string)
    requires n < |commands| && commands[n].Data? && rcpt in After(c, commands[..n]).rcpts
    requires |After(c, commands[..n + 1]).replies| == n + 1 && After(c, commands[..n + 1]).replies[n] == Accepted
    ensures var before, after := After(c, commands[..n]).stored, After(c, commands[..n + 1]).stored;
            before <= after && exists k :: |before| <= k < |after| && after[k].recipient == rcpt
  {
    EachDataStoresItsRecipients(c, commands, n);
    var s, t := After(c, commands[..n]), After(c, commands[..n + 1]);
    HeldIsStored(c, commands[n], s.rcpts, s.stored, t.stored, rcpt);
  }

  lemma HeldIsStored(c: Config, command: Command, rcpts: seq<string>, before: seq<ParsedEmail>,
                     after: seq<ParsedEmail>, rcpt: string)
    requires command.Data? && rcpt in rcpts && StoresFor(c, command, rcpts, before, after)
    ensures before <= after
    ensures exists k :: |before| <= k < |after| && after[k].recipient == rcpt
  {
    var i :| 0 <= i < |rcpts| && rcpts[i] == rcpt;
    assert IsFor(c, command, rcpts[i], after[|before| + i]);
  }
}
