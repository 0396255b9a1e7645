/** The Mailgun provider's `send_email_to_recipients`: the checks made
    before anything is sent, the split of the recipients into requests of
    at most a thousand, the form data of each request and the early stop
    at the first request Mailgun refuses. The API key, the domain name and
    the HTTP status of each request are parameters. */
module Mailgun {

  import opened Wrappers
  import opened EmailServices

  /** The timeout given to every request, in seconds. */
  const TimeoutSecs: nat := 60

  /** The most recipients one request may address. */
  const MaxRecipientsPerRequest: nat := 1000

  function Min(a: int, b: int): int {
    if a <= b then a else b
  }

  /** The recipient lists of the requests, as the source's comprehension
      slices them: the `k`-th covers positions `1000 * k` up to the next
      multiple of a thousand or the end. */
  function Chunks(xs: seq<string>): (r: seq<seq<string>>)
    ensures |r| == (|xs| + 999) / 1000
    ensures forall k :: 0 <= k < |r| ==> 0 < |r[k]| <= MaxRecipientsPerRequest
  {
    seq((|xs| + 999) / 1000, k requires 0 <= k < (|xs| + 999) / 1000 =>
          xs[1000 * k .. Min(1000 * k + 1000, |xs|)])
  }

  /** The lists laid end to end. */
  function Flatten(ss: seq<seq<string>>): seq<string> {
    if |ss| == 0 then [] else ss[0] + Flatten(ss[1..])
  }

  /** Past a thousand recipients the first request takes the first
      thousand and the rest are chunked alike. */
  lemma ChunksStep(xs: seq<string>)
    requires |xs| > 1000
    ensures Chunks(xs) == [xs[..1000]] + Chunks(xs[1000..])
  {
    var r := Chunks(xs);
    var t := Chunks(xs[1000..]);
    assert |r| == |t| + 1;
    forall k | 1 <= k < |r| ensures r[k] == t[k - 1] {
      assert xs[1000..][1000 * (k - 1) .. Min(1000 * (k - 1) + 1000, |xs| - 1000)]
             == xs[1000 * k .. Min(1000 * k + 1000, |xs|)];
    }
  }

  /** The requests address every recipient once, in order: the chunks laid
      end to end are the recipient list. */
  lemma {:induction false} ChunksPartition(xs: seq<string>)
    ensures Flatten(Chunks(xs)) == xs
    decreases |xs|
  {
    if |xs| == 0 {
    } else if |xs| <= 1000 {
      var r := Chunks(xs);
      assert |r| == 1;
      assert r[0] == xs[0 .. Min(1000, |xs|)] == xs;
      assert r == [xs];
      assert r[1..] == [];
      assert xs + [] == xs;
    } else {
      ChunksStep(xs);
      ChunksPartition(xs[1000..]);
      assert ([xs[..1000]] + Chunks(xs[1000..]))[1..] == Chunks(xs[1000..]);
      assert xs[..1000] + xs[1000..] == xs;
    }
  }

  /** Every request but the last is full. */
  lemma ChunksFull(xs: seq<string>)
    ensures forall k :: 0 <= k < |Chunks(xs)| - 1 ==> |Chunks(xs)[k]| == MaxRecipientsPerRequest
  {
  }

  /** A form field sent once or repeated. */
  datatype FieldValue = One(value: string) | Many(values: seq<string>)

  /** A list with one element is sent as that element, any other as the
      list. */
  function Collapse(xs: seq<string>): (v: FieldValue)
    ensures v.One? <==> |xs| == 1
  {
    if |xs| == 1 then One(xs[0]) else Many(xs)
  }

  /** The addresses a field stands for. */
  function Addresses(v: FieldValue): seq<string> {
    match v
    case One(a) => [a]
    case Many(xs) => xs
  }

  /** Collapsing loses nothing. */
  lemma CollapseRoundTrip(xs: seq<string>)
    ensures Addresses(Collapse(xs)) == xs
  {
  }

  /** The form data of one request. */
  datatype Payload = Payload(
    from: string,
    subject: string,
    text: string,
    html: string,
    to: FieldValue,
    bcc: Option<FieldValue>,
    replyTo: Option<string>,
    recipientVariables: RecipientVariables)

  /** One POST to Mailgun. */
  datatype Post = Post(
    url: string,
    auth: (string, string),
    data: Payload,
    files: Option<seq<Attachment>>,
    timeout: nat)

  /** Where messages for a domain are posted. */
  function MessagesUrl(domain: string): string {
    "https://api.mailgun.net/v3/" + domain + "/messages"
  }

  /** The request for one chunk of recipients. Bcc, reply-to and
      attachments are sent only when present and non-empty; recipient
      variables default to the empty map. */
  function ChunkPost(q: EmailRequest, apiKey: string, domain: string, chunk: seq<string>): (p: Post)
    ensures p.url == MessagesUrl(domain) && p.auth == ("api", apiKey) && p.timeout == TimeoutSecs
    ensures Addresses(p.data.to) == chunk && (p.data.to.One? <==> |chunk| == 1)
    ensures p.data.bcc.Some? <==> q.bcc.Some? && |q.bcc.value| > 0
    ensures p.data.bcc.Some? ==> Addresses(p.data.bcc.value) == q.bcc.value
    ensures p.data.replyTo.Some? <==> q.replyTo.Some? && |q.replyTo.value| > 0
    ensures p.data.replyTo.Some? ==> p.data.replyTo == q.replyTo
    ensures q.recipientVariables.None? ==> p.data.recipientVariables == map[]
    ensures q.recipientVariables.Some? ==> p.data.recipientVariables == q.recipientVariables.value
    ensures p.files.Some? <==> q.attachments.Some? && |q.attachments.value| > 0
    ensures p.files.Some? ==> p.files == q.attachments
  {
    var data := Payload(
      q.sender, q.subject, q.plaintextBody, q.htmlBody, Collapse(chunk),
      if q.bcc.Some? && |q.bcc.value| > 0 then Some(Collapse(q.bcc.value)) else None,
      if q.replyTo.Some? && |q.replyTo.value| > 0 then q.replyTo else None,
      if q.recipientVariables.Some? then q.recipientVariables.value else map[]);
    Post(MessagesUrl(domain), ("api", apiKey), data,
         if q.attachments.Some? && |q.attachments.value| > 0 then q.attachments else None,
         TimeoutSecs)
  }

  /** The exceptions raised before any request, each carrying the message
      as it would be logged (without attachments). */
  datatype MailgunError = ApiKeyMissing(email: LoggableEmail) | DomainNotSet(email: LoggableEmail)

  /** The requests made for all chunks of a message. */
  function AllPosts(q: EmailRequest, apiKey: string, domain: string): (ps: seq<Post>)
    ensures |ps| == |Chunks(q.recipients)|
  {
    var chunks := Chunks(q.recipients);
    seq(|chunks|, k requires 0 <= k < |chunks| => ChunkPost(q, apiKey, domain, chunks[k]))
  }

  /** The recipients a sequence of requests addresses, in order. */
  function Addressed(ps: seq<Post>): seq<string> {
    if |ps| == 0 then [] else Addresses(ps[0].data.to) + Addressed(ps[1..])
  }

  lemma {:induction false} AddressedChunks(q: EmailRequest, apiKey: string, domain: string, chunks: seq<seq<string>>)
    ensures Addressed(seq(|chunks|, k requires 0 <= k < |chunks| => ChunkPost(q, apiKey, domain, chunks[k])))
            == Flatten(chunks)
    decreases |chunks|
  {
    if |chunks| > 0 {
      var ps := seq(|chunks|, k requires 0 <= k < |chunks| => ChunkPost(q, apiKey, domain, chunks[k]));
      var rest := chunks[1..];
      AddressedChunks(q, apiKey, domain, rest);
      assert ps[1..] == seq(|rest|, k requires 0 <= k < |rest| => ChunkPost(q, apiKey, domain, rest[k]));
    }
  }

  /** Taken together, the requests for a message address exactly its
      recipients, in order. */
  lemma AllPostsAddressRecipients(q: EmailRequest, apiKey: string, domain: string)
    ensures Addressed(AllPosts(q, apiKey, domain)) == q.recipients
  {
    AddressedChunks(q, apiKey, domain, Chunks(q.recipients));
    ChunksPartition(q.recipients);
  }

  /** `send_email_to_recipients`. Without an API key, or with an empty
      domain name, it raises before any request. Otherwise it posts the
      chunks in order; `status(k)` is Mailgun's answer to the `k`-th
      request. It returns false right after the first answer other than
      200, leaving later chunks unsent, and true once every chunk is
      accepted, which includes a message with no recipients. */
  method SendEmailToRecipients(q: EmailRequest, apiKey: Option<string>, domain: string,
                               status: nat -> int)
    returns (posts: seq<Post>, result: Result<bool, MailgunError>)
    ensures apiKey.None? ==>
              posts == [] && result == Failure(ApiKeyMissing(Loggable(q.(attachments := None))))
    ensures apiKey.Some? && domain == "" ==>
              posts == [] && result == Failure(DomainNotSet(Loggable(q.(attachments := None))))
    ensures apiKey.Some? && domain != "" ==>
              result.Success?
              && posts <= AllPosts(q, apiKey.value, domain)
              && (result.value <==> forall k :: 0 <= k < |AllPosts(q, apiKey.value, domain)| ==> status(k) == 200)
              && (result.value ==> posts == AllPosts(q, apiKey.value, domain))
              && (!result.value ==> 0 < |posts| && status(|posts| - 1) != 200
                                    && forall k :: 0 <= k < |posts| - 1 ==> status(k) == 200)
  {
    if apiKey.None? {
      return [], Failure(ApiKeyMissing(Loggable(q.(attachments := None))));
    }
    if domain == "" {
      return [], Failure(DomainNotSet(Loggable(q.(attachments := None))));
    }
    var all := AllPosts(q, apiKey.value, domain);
    posts := [];
    var k := 0;
    while k < |all|
      invariant 0 <= k <= |all|
      invariant posts == all[..k]
      invariant forall j :: 0 <= j < k ==> status(j) == 200
    {
      posts := posts + [all[k]];
      if status(k) != 200 {
        return posts, Success(false);
      }
      k := k + 1;
    }
    assert posts == all;
    return posts, Success(true);
  }
}
