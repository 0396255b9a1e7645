/** Oppia's email front door: address validation, the checks `send_mail`
    and `send_bulk_mail` make before handing a message to the email
    provider, and the summary of a message written to the log in place of
    sending it. The server's send flag, the administrator's address and
    the provider itself are parameters. */
module EmailServices {

  import opened Wrappers
  import opened Strings

  predicate IsAsciiLetter(c: char) {
    'a' <= c <= 'z' || 'A' <= c <= 'Z'
  }

  predicate IsAsciiDigit(c: char) {
    '0' <= c <= '9'
  }

  /** The class `[a-zA-Z0-9-.]` of the domain part. */
  predicate IsDomainChar(c: char) {
    IsAsciiLetter(c) || IsAsciiDigit(c) || c == '-' || c == '.'
  }

  predicate AllDomainChars(s: string) {
    forall k :: 0 <= k < |s| ==> IsDomainChar(s[k])
  }

  /** The final label `([a-zA-Z]+|[0-9]+)`: non-empty, all letters or all
      digits. */
  predicate IsTopLabel(s: string) {
    |s| > 0
    && ((forall k :: 0 <= k < |s| ==> IsAsciiLetter(s[k]))
        || (forall k :: 0 <= k < |s| ==> IsAsciiDigit(s[k])))
  }

  /** `t` splits as the address pattern `^.+@[a-zA-Z0-9-.]+\.([a-zA-Z]+|[0-9]+)$`
      does, with the `@` at `i` and the final `.` at `j`: a non-empty run
      without newlines, `@`, a non-empty run of domain characters, `.`, and
      a top label. */
  predicate IsSplitAt(t: string, i: nat, j: nat) {
    0 < i && i + 1 < j < |t| && t[i] == '@' && t[j] == '.'
    && '\n' !in t[..i] && AllDomainChars(t[i + 1..j]) && IsTopLabel(t[j + 1..])
  }

  /** The pattern matching all of `t`. */
  ghost predicate PatternMatches(t: string) {
    exists i: nat, j: nat :: IsSplitAt(t, i, j)
  }

  /** `re.search` with the pattern: `^` holds only at the start and `$` at
      the end or just before a final newline. */
  ghost predicate PatternFound(s: string) {
    PatternMatches(s) || (|s| > 0 && s[|s| - 1] == '\n' && PatternMatches(s[..|s| - 1]))
  }

  /** A direct scan for the pattern: the top label follows the last `.`, the
      domain part the last `@`. */
  predicate MatchesAddress(t: string) {
    '\n' !in t && LastIndexOf(t, '@').Some? && LastIndexOf(t, '.').Some?
    && IsSplitAt(t, LastIndexOf(t, '@').value, LastIndexOf(t, '.').value)
  }

  /** `_is_email_valid`: the address must not strip to nothing and must
      contain the pattern. */
  predicate IsEmailValid(address: string) {
    |Strip(address)| > 0
    && (MatchesAddress(address)
        || (|address| > 0 && address[|address| - 1] == '\n' && MatchesAddress(address[..|address| - 1])))
  }

  /** In any match the `@` and the `.` are the last of their kind and the
      text has no newline. */
  lemma PatternSplitIsLast(t: string, i: nat, j: nat)
    requires IsSplitAt(t, i, j)
    ensures '\n' !in t && LastIndexOf(t, '@') == Some(i) && LastIndexOf(t, '.') == Some(j)
  {
    var top := t[j + 1..];
    forall k | j < k < |t| ensures t[k] != '.' && t[k] != '@' && t[k] != '\n' {
      assert t[k] == top[k - j - 1];
      assert IsAsciiLetter(top[k - j - 1]) || IsAsciiDigit(top[k - j - 1]);
    }
    forall k | i < k < j ensures t[k] != '@' && t[k] != '\n' {
      assert t[k] == t[i + 1..j][k - i - 1];
    }
    forall k | 0 <= k < i ensures t[k] != '\n' {
      assert t[k] == t[..i][k];
    }
    NotInSuffix(t, '.', j + 1);
    NotInSuffix(t, '@', i + 1);
    LastIndexOfUnique(t, '.', j);
    LastIndexOfUnique(t, '@', i);
  }

  /** The scan accepts exactly the strings the pattern matches in full. */
  lemma MatchesAddressIff(t: string)
    ensures MatchesAddress(t) <==> PatternMatches(t)
  {
    if PatternMatches(t) {
      var i: nat, j: nat :| IsSplitAt(t, i, j);
      PatternSplitIsLast(t, i, j);
    }
  }

  /** Every match holds an `@`, which is not whitespace. */
  lemma PatternFoundHasContent(s: string)
    requires PatternFound(s)
    ensures |Strip(s)| > 0
  {
    if PatternMatches(s) {
      var i: nat, j: nat :| IsSplitAt(s, i, j);
      VisibleAsciiNotWhitespace('@');
      StripKeepsContent(s, i);
    } else {
      var t := s[..|s| - 1];
      var i: nat, j: nat :| IsSplitAt(t, i, j);
      assert s[i] == t[i];
      VisibleAsciiNotWhitespace('@');
      StripKeepsContent(s, i);
    }
  }

  /** Validity is exactly `re.search` of the pattern: the strip check never
      rejects an address the pattern accepts. */
  lemma EmailValidIff(s: string)
    ensures IsEmailValid(s) <==> PatternFound(s)
  {
    MatchesAddressIff(s);
    if |s| > 0 && s[|s| - 1] == '\n' {
      MatchesAddressIff(s[..|s| - 1]);
    }
    if PatternFound(s) {
      PatternFoundHasContent(s);
    }
  }

  /** An empty or whitespace-only address is invalid. */
  lemma BlankAddressInvalid(s: string)
    requires AllWhitespace(s)
    ensures !IsEmailValid(s)
  {
    StripBlank(s);
  }

  /** A plain address is valid. */
  lemma PlainAddressValid()
    ensures IsEmailValid("user@example.com")
  {
    var t := "user@example.com";
    assert t[..4] == "user" && t[5..12] == "example" && t[13..] == "com";
    assert IsSplitAt(t, 4, 12);
    PatternSplitIsLast(t, 4, 12);
    VisibleAsciiNotWhitespace(t[0]);
    StripKeepsContent(t, 0);
  }

  /** Because `$` also matches before a final newline, a valid address
      followed by one newline is valid too. */
  lemma TrailingNewlineAccepted(t: string)
    requires IsEmailValid(t) && '\n' !in t
    ensures IsEmailValid(t + "\n")
  {
    var s := t + "\n";
    assert s[..|s| - 1] == t;
    var i := LastIndexOf(t, '@').value;
    assert s[i] == '@';
    VisibleAsciiNotWhitespace('@');
    StripKeepsContent(s, i);
  }

  /** A numeric top label is accepted. */
  lemma NumericTopLabelValid()
    ensures IsEmailValid("user@10.0.0.1")
  {
    var t := "user@10.0.0.1";
    assert t[..4] == "user" && t[5..11] == "10.0.0" && t[12..] == "1";
    assert IsSplitAt(t, 4, 11);
    PatternSplitIsLast(t, 4, 11);
    VisibleAsciiNotWhitespace(t[0]);
    StripKeepsContent(t, 0);
  }

  /** A top label mixing letters and digits is rejected. */
  lemma MixedTopLabelInvalid()
    ensures !IsEmailValid("user@example.c0m")
  {
    var t := "user@example.c0m";
    assert t[..12] == "user@example" && t[12] == '.';
    assert '.' !in t[13..];
    LastIndexOfUnique(t, '.', 12);
    assert !IsTopLabel(t[13..]) by {
      assert t[13..][0] == 'c' && t[13..][1] == '0';
    }
  }

  /** An address with nothing before the `@` is rejected. */
  lemma EmptyLocalPartInvalid()
    ensures !IsEmailValid("@example.com")
  {
    var t := "@example.com";
    NotInSuffix(t, '@', 1);
    LastIndexOfUnique(t, '@', 0);
  }

  /** An address with nothing between the `@` and the final `.` is
      rejected. */
  lemma EmptyDomainPartInvalid()
    ensures !IsEmailValid("user@.com")
  {
    var t := "user@.com";
    NotInSuffix(t, '@', 5);
    LastIndexOfUnique(t, '@', 4);
    NotInSuffix(t, '.', 6);
    LastIndexOfUnique(t, '.', 5);
  }

  /** The `<addr>` shape required of the text after a sender's last space.
      (A piece of one character cannot both start with `<` and end with
      `>`, so the length test matches the source's `startswith`/`endswith`
      pair.) */
  predicate IsBracketedAddress(a: string) {
    |a| >= 2 && a[0] == '<' && a[|a| - 1] == '>' && IsEmailValid(a[1..|a| - 1])
  }

  /** `_is_sender_email_valid`: a sender without spaces is judged as an
      address; otherwise its last space-separated piece must be `<addr>`
      with `addr` valid. */
  predicate IsSenderEmailValid(sender: string) {
    var pieces := Split(sender, [' ']);
    if |pieces| < 2 then IsEmailValid(sender)
    else
      IsBracketedAddress(pieces[|pieces| - 1])
  }

  /** A sender with no space is valid exactly when it is a valid
      address. */
  lemma SenderWithoutSpace(s: string)
    requires ' ' !in s
    ensures IsSenderEmailValid(s) <==> IsEmailValid(s)
  {
    SplitOnChar(s, ' ');
  }

  /** A sender with a space is valid exactly when what follows its last
      space is a bracketed valid address. */
  lemma SenderWithSpace(s: string, i: nat)
    requires LastIndexOf(s, ' ') == Some(i)
    ensures IsSenderEmailValid(s) <==> IsBracketedAddress(s[i + 1..])
  {
    var pieces := Split(s, [' ']);
    SplitOnChar(s, ' ');
    assert !(|pieces| < 2);
    assert pieces[|pieces| - 1] == s[i + 1..];
  }

  /** `Name <addr>` is accepted for any name exactly when `addr` is a valid
      address without spaces. */
  lemma NamedSender(name: string, addr: string)
    requires ' ' !in addr
    ensures IsSenderEmailValid(name + " <" + addr + ">") <==> IsEmailValid(addr)
  {
    var s := name + " <" + addr + ">";
    var a := "<" + addr + ">";
    var i := |name|;
    assert s[i] == ' ';
    assert s[i + 1..] == a;
    assert ' ' !in a by {
      forall m | 0 <= m < |a| ensures a[m] != ' ' {
        if 0 < m < |a| - 1 {
          assert a[m] == addr[m - 1];
        }
      }
    }
    LastIndexOfUnique(s, ' ', i);
    SenderWithSpace(s, i);
    assert a[1..|a| - 1] == addr;
  }

  /** A file attached to a message. */
  datatype Attachment = Attachment(filename: string, path: string)

  /** Per-recipient values for batch sending, by recipient address. */
  type RecipientVariables = map<string, map<string, string>>

  /** The arguments of the provider's `send_email_to_recipients`. */
  datatype EmailRequest = EmailRequest(
    sender: string,
    recipients: seq<string>,
    subject: string,
    plaintextBody: string,
    htmlBody: string,
    bcc: Option<seq<string>>,
    replyTo: Option<string>,
    recipientVariables: Option<RecipientVariables>,
    attachments: Option<seq<Attachment>>)

  /** The exceptions the senders raise. */
  datatype EmailError =
    | CannotSend
    | MalformedRecipient(address: string)
    | MalformedSender(address: string)
    | FailedToSend(recipient: string)
    | BulkFailedToSend
    | ProviderRaised(message: string)

  /** `ValueError` for malformed addresses, a plain `Exception` otherwise. */
  predicate IsValueError(e: EmailError) {
    e.MalformedRecipient? || e.MalformedSender?
  }

  /** The message each exception carries. An exception from the provider
      passes through with its own message. */
  function Message(e: EmailError): string {
    match e
    case CannotSend => "This app cannot send emails to users."
    case MalformedRecipient(a) => "Malformed recipient email address: " + a
    case MalformedSender(a) => "Malformed sender email address: " + a
    case FailedToSend(r) =>
      "Email to " + r
      + " failed to send. Please try again later or contact us to report a bug at https://www.oppia.org/contact."
    case BulkFailedToSend =>
      "Bulk email failed to send. Please try again later or contact us to report a bug at https://www.oppia.org/contact."
    case ProviderRaised(m) => m
  }

  /** What the provider's `send_email_to_recipients` does with a request:
      returns whether it was accepted, or raises with a message (the
      Mailgun provider does so without an API key or a domain name). */
  type Provider = EmailRequest -> Result<bool, string>

  /** What a send attempt did: the request handed to the provider, if any,
      and the exception raised, if any. */
  datatype Dispatch = Dispatch(request: Option<EmailRequest>, raised: Option<EmailError>)

  /** The request `send_mail` hands to the provider: one recipient, the
      administrator in bcc exactly when asked for, an empty reply-to and no
      recipient variables. */
  function MailRequest(adminEmailAddress: string, sender: string, recipient: string, subject: string,
                       plaintextBody: string, htmlBody: string, bccAdmin: bool,
                       attachments: Option<seq<Attachment>>): (q: EmailRequest)
    ensures q.sender == sender && q.recipients == [recipient] && q.subject == subject
    ensures q.plaintextBody == plaintextBody && q.htmlBody == htmlBody && q.attachments == attachments
    ensures q.bcc.Some? <==> bccAdmin
    ensures bccAdmin ==> q.bcc.value == [adminEmailAddress]
    ensures q.replyTo == Some("") && q.recipientVariables.None?
  {
    EmailRequest(sender, [recipient], subject, plaintextBody, htmlBody,
                 if bccAdmin then Some([adminEmailAddress]) else None, Some(""), None, attachments)
  }

  /** Hands a request to the provider: raises `refused` when the provider
      reports failure, and lets the provider's own exception through. */
  function Deliver(request: EmailRequest, send: Provider, refused: EmailError): (r: Dispatch)
    ensures r.request == Some(request)
    ensures r.raised.None? <==> send(request) == Success(true)
    ensures send(request) == Success(false) ==> r.raised == Some(refused)
    ensures send(request).Failure? ==>
              r.raised == Some(ProviderRaised(send(request).error)) && Message(r.raised.value) == send(request).error
  {
    match send(request)
    case Failure(m) => Dispatch(Some(request), Some(ProviderRaised(m)))
    case Success(accepted) =>
      if accepted then Dispatch(Some(request), None) else Dispatch(Some(request), Some(refused))
  }

  /** `send_mail`: checks the server flag, the recipient and the sender in
      that order, then hands one request to the provider and raises if it
      reports failure. An exception from the provider is not caught. */
  function SendMail(serverCanSendEmails: bool, adminEmailAddress: string, sender: string,
                    recipient: string, subject: string, plaintextBody: string, htmlBody: string,
                    bccAdmin: bool, attachments: Option<seq<Attachment>>,
                    send: Provider): (r: Dispatch)
    ensures r.request.Some? <==> serverCanSendEmails && IsEmailValid(recipient) && IsSenderEmailValid(sender)
    ensures r.raised.None? <==> r.request.Some? && send(r.request.value) == Success(true)
  {
    if !serverCanSendEmails then Dispatch(None, Some(CannotSend))
    else if !IsEmailValid(recipient) then
      Dispatch(None, Some(MalformedRecipient(recipient)))
    else if !IsSenderEmailValid(sender) then
      Dispatch(None, Some(MalformedSender(sender)))
    else
      var request := MailRequest(adminEmailAddress, sender, recipient, subject, plaintextBody,
                                 htmlBody, bccAdmin, attachments);
      Deliver(request, send, FailedToSend(recipient))
  }

  /** The checks run in order and the first to fail decides the exception:
      the server flag, then the recipient, then the sender. */
  lemma SendMailCheckOrder(serverCanSendEmails: bool, adminEmailAddress: string, sender: string,
                           recipient: string, subject: string, plaintextBody: string, htmlBody: string,
                           bccAdmin: bool, attachments: Option<seq<Attachment>>,
                           send: Provider)
    ensures var r := SendMail(serverCanSendEmails, adminEmailAddress, sender, recipient, subject,
                              plaintextBody, htmlBody, bccAdmin, attachments, send);
            (!serverCanSendEmails ==> r.raised == Some(CannotSend))
            && (serverCanSendEmails && !IsEmailValid(recipient) ==>
                  r.raised == Some(MalformedRecipient(recipient)))
            && (serverCanSendEmails && IsEmailValid(recipient) && !IsSenderEmailValid(sender) ==>
                  r.raised == Some(MalformedSender(sender)))
  {
  }

  /** What reaches the provider: the one-recipient request, with the
      administrator in bcc exactly when asked for; a refused delivery
      raises naming the recipient, and an exception from the provider
      passes through unchanged. */
  lemma SendMailRequest(serverCanSendEmails: bool, adminEmailAddress: string, sender: string,
                        recipient: string, subject: string, plaintextBody: string, htmlBody: string,
                        bccAdmin: bool, attachments: Option<seq<Attachment>>,
                        send: Provider)
    ensures var r := SendMail(serverCanSendEmails, adminEmailAddress, sender, recipient, subject,
                              plaintextBody, htmlBody, bccAdmin, attachments, send);
            r.request.Some? ==>
              r.request.value == MailRequest(adminEmailAddress, sender, recipient, subject,
                                             plaintextBody, htmlBody, bccAdmin, attachments)
              && (send(r.request.value) == Success(false) ==> r.raised == Some(FailedToSend(recipient)))
              && (send(r.request.value).Failure? ==>
                    r.raised == Some(ProviderRaised(send(r.request.value).error))
                    && Message(r.raised.value) == send(r.request.value).error)
  {
    var r := SendMail(serverCanSendEmails, adminEmailAddress, sender, recipient, subject,
                      plaintextBody, htmlBody, bccAdmin, attachments, send);
    if r.request.Some? {
      assert serverCanSendEmails && IsEmailValid(recipient) && IsSenderEmailValid(sender);
      var request := MailRequest(adminEmailAddress, sender, recipient, subject, plaintextBody,
                                 htmlBody, bccAdmin, attachments);
      assert r.request == Some(request);
    }
  }

  /** The index of the first element failing `ok`, scanning from `k`. */
  function FirstFailingFrom<T>(xs: seq<T>, ok: T -> bool, k: nat): (r: Option<nat>)
    requires k <= |xs|
    ensures r.None? ==> forall m :: k <= m < |xs| ==> ok(xs[m])
    ensures r.Some? ==> k <= r.value < |xs| && !ok(xs[r.value])
                        && forall m :: k <= m < r.value ==> ok(xs[m])
    decreases |xs| - k
  {
    if k == |xs| then None
    else if !ok(xs[k]) then Some(k)
    else FirstFailingFrom(xs, ok, k + 1)
  }

  /** The position of the first invalid address in list order. */
  function FirstInvalid(addresses: seq<string>): (r: Option<nat>)
    ensures r.None? <==> forall m :: 0 <= m < |addresses| ==> IsEmailValid(addresses[m])
    ensures r.Some? ==> r.value < |addresses| && !IsEmailValid(addresses[r.value])
                        && forall m :: 0 <= m < r.value ==> IsEmailValid(addresses[m])
  {
    FirstFailingFrom(addresses, IsEmailValid, 0)
  }

  /** `send_bulk_mail`: checks the server flag, every recipient in order
      and the sender, then hands one request for all recipients to the
      provider and raises if it reports failure. */
  function SendBulkMail(serverCanSendEmails: bool, sender: string, recipients: seq<string>,
                        subject: string, plaintextBody: string, htmlBody: string,
                        attachments: Option<seq<Attachment>>,
                        send: Provider): (r: Dispatch)
    ensures r.request.Some? <==>
              serverCanSendEmails && FirstInvalid(recipients).None? && IsSenderEmailValid(sender)
    ensures r.raised.None? <==> r.request.Some? && send(r.request.value) == Success(true)
  {
    if !serverCanSendEmails then Dispatch(None, Some(CannotSend))
    else match FirstInvalid(recipients)
      case Some(k) => Dispatch(None, Some(MalformedRecipient(recipients[k])))
      case None =>
        if !IsSenderEmailValid(sender) then Dispatch(None, Some(MalformedSender(sender)))
        else
          var request := EmailRequest(sender, recipients, subject, plaintextBody, htmlBody,
                                      None, None, None, attachments);
          Deliver(request, send, BulkFailedToSend)
  }

  /** A bulk send goes out only when every recipient is valid; otherwise the
      exception names the first invalid recipient in list order, and only a
      server that may send gets that far. */
  lemma SendBulkMailCheckOrder(serverCanSendEmails: bool, sender: string, recipients: seq<string>,
                               subject: string, plaintextBody: string, htmlBody: string,
                               attachments: Option<seq<Attachment>>,
                               send: Provider)
    ensures var r := SendBulkMail(serverCanSendEmails, sender, recipients, subject, plaintextBody,
                                  htmlBody, attachments, send);
            (r.request.Some? ==> forall m :: 0 <= m < |recipients| ==> IsEmailValid(recipients[m]))
            && (!serverCanSendEmails ==> r.raised == Some(CannotSend))
            && (serverCanSendEmails ==>
                  forall k :: 0 <= k < |recipients| && !IsEmailValid(recipients[k])
                              && (forall m :: 0 <= m < k ==> IsEmailValid(recipients[m])) ==>
                    r.raised == Some(MalformedRecipient(recipients[k])))
            && ((serverCanSendEmails && (forall m :: 0 <= m < |recipients| ==> IsEmailValid(recipients[m]))
                 && !IsSenderEmailValid(sender)) ==> r.raised == Some(MalformedSender(sender)))
  {
    var first := FirstInvalid(recipients);
    if serverCanSendEmails && first.Some? {
      forall k | 0 <= k < |recipients| && !IsEmailValid(recipients[k])
                 && (forall m :: 0 <= m < k ==> IsEmailValid(recipients[m]))
        ensures k == first.value
      {
        assert !(k < first.value) && !(first.value < k);
      }
    }
  }

  /** What reaches the provider: all recipients in one request with no
      bcc, reply-to or recipient variables; a refused delivery raises the
      bulk failure, and an exception from the provider passes through
      unchanged. */
  lemma SendBulkMailRequest(serverCanSendEmails: bool, sender: string, recipients: seq<string>,
                            subject: string, plaintextBody: string, htmlBody: string,
                            attachments: Option<seq<Attachment>>,
                            send: Provider)
    ensures var r := SendBulkMail(serverCanSendEmails, sender, recipients, subject, plaintextBody,
                                  htmlBody, attachments, send);
            r.request.Some? ==>
              r.request.value == EmailRequest(sender, recipients, subject, plaintextBody, htmlBody,
                                              None, None, None, attachments)
              && (send(r.request.value) == Success(false) ==> r.raised == Some(BulkFailedToSend))
              && (send(r.request.value).Failure? ==>
                    r.raised == Some(ProviderRaised(send(r.request.value).error))
                    && Message(r.raised.value) == send(r.request.value).error)
  {
    var r := SendBulkMail(serverCanSendEmails, sender, recipients, subject, plaintextBody,
                          htmlBody, attachments, send);
    if r.request.Some? {
      assert serverCanSendEmails && FirstInvalid(recipients).None? && IsSenderEmailValid(sender);
      var request := EmailRequest(sender, recipients, subject, plaintextBody, htmlBody,
                                  None, None, None, attachments);
      assert r.request == Some(request);
    }
  }

  /** The recipient part of a logged message: the first three addresses
      joined by spaces, followed by `... Total: N emails.` when there are
      more. */
  function AddressSummary(addresses: seq<string>): string {
    if |addresses| <= 3 then Join(addresses, " ")
    else Join(addresses[..3], " ") + "... Total: " + NatToString(|addresses|) + " emails."
  }

  /** Up to three space-free addresses are listed whole: splitting the
      summary on spaces gives them back. */
  lemma ShortSummaryListsAll(addresses: seq<string>)
    requires 0 < |addresses| <= 3
    requires forall k :: 0 <= k < |addresses| ==> ' ' !in addresses[k]
    ensures Split(AddressSummary(addresses), " ") == addresses
  {
    forall k | 0 <= k < |addresses| ensures !Contains(addresses[k], " ") {
      ContainsChar(addresses[k], ' ');
    }
    SplitJoin(addresses, " ");
  }

  /** The space-separated words of a summary of more than three
      addresses. */
  function LongSummaryWords(addresses: seq<string>): seq<string>
    requires |addresses| > 3
  {
    [addresses[0], addresses[1], addresses[2] + "...", "Total:", NatToString(|addresses|), "emails."]
  }

  lemma LongSummaryJoin(addresses: seq<string>)
    requires |addresses| > 3
    ensures Join(LongSummaryWords(addresses), " ") == AddressSummary(addresses)
  {
    var n := NatToString(|addresses|);
    var a, b, c := addresses[0], addresses[1], addresses[2];
    assert Join(addresses[..3], " ") == a + " " + (b + " " + c) by {
      assert addresses[..3] == [a] + ([b] + [c]);
      JoinCons(a, [b] + [c], " ");
      JoinCons(b, [c], " ");
    }
    JoinSix(LongSummaryWords(addresses), " ");
    SummaryTail(a, b, c, n);
  }

  /** The text of a long summary regrouped word by word. */
  lemma SummaryTail(a: string, b: string, c: string, n: string)
    ensures a + " " + (b + " " + ((c + "...") + " " + ("Total:" + " " + (n + " " + "emails."))))
            == a + " " + (b + " " + c) + "... Total: " + n + " emails."
  {
    var e := n + " " + "emails.";
    assert e == n + " emails.";
    var t := "Total:" + " " + e;
    assert t == "Total: " + n + " emails.";
    var d := (c + "...") + " " + t;
    assert d == c + "... Total: " + n + " emails.";
  }

  lemma LongSummaryWordsSpaceFree(addresses: seq<string>)
    requires |addresses| > 3
    requires forall k :: 0 <= k < 3 ==> ' ' !in addresses[k]
    ensures forall k :: 0 <= k < 6 ==> !Contains(LongSummaryWords(addresses)[k], " ")
  {
    var w := LongSummaryWords(addresses);
    forall k | 0 <= k < 6 ensures !Contains(w[k], " ") {
      if k == 2 {
        assert ' ' !in addresses[2] + "...";
      } else if k == 4 {
        var n := NatToString(|addresses|);
        assert forall m :: 0 <= m < |n| ==> n[m] != ' ' by {
          forall m | 0 <= m < |n| ensures n[m] != ' ' {
            assert '0' <= n[m] <= '9';
          }
        }
      }
      ContainsChar(w[k], ' ');
    }
  }

  /** Past three addresses the summary shows the first three and the total:
      splitting it on spaces gives the first two, the third with `...`
      attached, `Total:`, the count in decimal and `emails.`. */
  lemma LongSummaryCounts(addresses: seq<string>)
    requires |addresses| > 3
    requires forall k :: 0 <= k < 3 ==> ' ' !in addresses[k]
    ensures var p := Split(AddressSummary(addresses), " ");
            |p| == 6 && p[0] == addresses[0] && p[1] == addresses[1] && p[2] == addresses[2] + "..."
            && p[3] == "Total:" && AllDigits(p[4]) && ParseDigits(p[4]) == |addresses| && p[5] == "emails."
  {
    LongSummaryJoin(addresses);
    LongSummaryWordsSpaceFree(addresses);
    SplitJoin(LongSummaryWords(addresses), " ");
    NatToStringRoundTrip(|addresses|);
  }

  /** The attachment part of a logged message: the file names joined by
      commas, or `None` when there are none. */
  function AttachmentSummary(attachments: Option<seq<Attachment>>): string {
    if attachments.Some? && |attachments.value| > 0 then
      Join(seq(|attachments.value|, k requires 0 <= k < |attachments.value| => attachments.value[k].filename), ", ")
    else "None"
  }

  /** What `convert_email_to_loggable_string` records of a message: the
      sender and subject, the recipient summary, the sizes of both bodies,
      the bcc summary, the reply-to address, the number of recipient
      variables and the attachment names. An empty list, string or map
      counts as absent, as Python's truthiness makes it. */
  datatype LoggableEmail = LoggableEmail(
    sender: string,
    recipients: string,
    subject: string,
    plaintextLength: nat,
    htmlLength: nat,
    bcc: string,
    replyTo: string,
    recipientVariablesLength: nat,
    attachments: string)

  function Loggable(q: EmailRequest): LoggableEmail {
    LoggableEmail(
      q.sender, AddressSummary(q.recipients), q.subject, |q.plaintextBody|, |q.htmlBody|,
      if q.bcc.Some? && |q.bcc.value| > 0 then AddressSummary(q.bcc.value) else "None",
      if q.replyTo.Some? && |q.replyTo.value| > 0 then q.replyTo.value else "None",
      if q.recipientVariables.Some? then |q.recipientVariables.value| else 0,
      AttachmentSummary(q.attachments))
  }

  /** The log keeps no message content: two messages that agree on sender,
      subject, bcc, reply-to, the first three recipients, the number of
      recipients, the sizes of the bodies and recipient variables and the
      attachment names log the same, whatever their bodies, later
      recipients, variable values and attachment paths. */
  lemma LoggableHidesContent(q1: EmailRequest, q2: EmailRequest)
    requires q1.sender == q2.sender && q1.subject == q2.subject
    requires q1.bcc == q2.bcc && q1.replyTo == q2.replyTo
    requires |q1.recipients| == |q2.recipients|
    requires q1.recipients[..if |q1.recipients| < 3 then |q1.recipients| else 3]
             == q2.recipients[..if |q2.recipients| < 3 then |q2.recipients| else 3]
    requires |q1.plaintextBody| == |q2.plaintextBody| && |q1.htmlBody| == |q2.htmlBody|
    requires q1.recipientVariables.Some? <==> q2.recipientVariables.Some?
    requires q1.recipientVariables.Some? ==> |q1.recipientVariables.value| == |q2.recipientVariables.value|
    requires q1.attachments.Some? <==> q2.attachments.Some?
    requires q1.attachments.Some? ==>
               |q1.attachments.value| == |q2.attachments.value|
               && forall k :: 0 <= k < |q1.attachments.value| ==>
                    q1.attachments.value[k].filename == q2.attachments.value[k].filename
    ensures Loggable(q1) == Loggable(q2)
  {
    if |q1.recipients| <= 3 {
      assert q1.recipients == q1.recipients[..|q1.recipients|];
      assert q2.recipients == q2.recipients[..|q2.recipients|];
    }
    if q1.attachments.Some? && |q1.attachments.value| > 0 {
      var a1 := q1.attachments.value;
      var a2 := q2.attachments.value;
      assert seq(|a1|, k requires 0 <= k < |a1| => a1[k].filename)
             == seq(|a2|, k requires 0 <= k < |a2| => a2[k].filename);
    }
  }
}
