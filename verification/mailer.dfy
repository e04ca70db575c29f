/** The `epMailer` composer: an immutable record holding the header table, the
    three recipient lists, the subject, the body and the transfer-encoding name.
    Each public method of the class is a function from the record (and the
    call's arguments) to the new record and the method's return value; `send`
    returns the four strings it would hand to PHP's `mail()`.

    The two PHP built-ins whose output the model does not define,
    `quoted_printable_encode` and `wordwrap($s, 75, "\r\n")`, are parameters
    (`qp` and `wrap`), so every property below holds whatever they compute. */
module Mailer {
  import opened PhpStrings
  import opened HeaderTable
  import Base64

  // ---------------------------------------------------------------------------
  // Constants
  // ---------------------------------------------------------------------------

  const Enc7bit: Bytes := "7bit"
  const Enc8bit: Bytes := "8bit"
  const EncBase64: Bytes := "base64"
  const EncQuotedPrintable: Bytes := "quoted-printable"

  const MimeVersionName: Bytes := "MIME-Version"
  const MailerName: Bytes := "X-Mailer"
  const TransferEncodingName: Bytes := "Content-Transfer-Encoding"
  const ContentTypeName: Bytes := "Content-Type"
  const FromName: Bytes := "From"
  const ReplyToName: Bytes := "Reply-To"
  const CcName: Bytes := "Cc"
  const BccName: Bytes := "Bcc"

  /** Names that may follow the three headers every composer starts with. */
  const LaterNames: set<Bytes> := {ContentTypeName, FromName, ReplyToName, CcName, BccName}

  const TextPlain: Bytes := "text/plain; charset=utf-8; format=flowed"
  const TextHtml: Bytes := "text/html; charset=utf-8"
  const NoSubject: Bytes := "(no subject)"

  /** RFC 2047 section 4.1 "B" encoded-word delimiters for UTF-8. */
  const WordPrefix: Bytes := "=?UTF-8?B?"
  const WordSuffix: Bytes := "?="

  /** Brackets around the address after a display name. */
  const AddressOpen: Bytes := " <"
  const AddressClose: Bytes := ">"

  /** Glue between recipients in `To`, `Cc` and `Bcc`. */
  const Separator: Bytes := ", "

  // ---------------------------------------------------------------------------
  // Encoded words and addresses
  // ---------------------------------------------------------------------------

  /** `encodeString`: the whole input as one "B" encoded-word. The payload
      between the delimiters is base64 and decodes back to the input. */
  function EncodeString(s: Bytes): (r: Bytes)
    ensures |r| == 12 + 4 * ((|s| + 2) / 3)
    ensures r[..10] == WordPrefix && r[|r| - 2..] == WordSuffix
    ensures forall i | 10 <= i < |r| - 2 :: Base64.IsBase64Char(r[i])
    ensures Base64.Decode(r[10..|r| - 2]) == Some(s)
    ensures s == [] ==> r == "=?UTF-8?B??="
  {
    var payload := Base64.Encode(s);
    Base64.DecodeEncode(s);
    var r := WordPrefix + payload + WordSuffix;
    assert r[10..|r| - 2] == payload;
    r
  }

  /** `encodeAddress`: with a truthy display name, the encoded name followed by
      the address in angle brackets; otherwise the address alone. */
  function EncodeAddress(address: Bytes, name: Option<Bytes>): (r: Bytes)
    ensures !Truthy(name) ==> r == address
    ensures Truthy(name) ==> r == EncodeString(name.value) + AddressOpen + address + AddressClose
  {
    if Truthy(name) then EncodeString(name.value) + AddressOpen + address + AddressClose else address
  }

  /** Length of the longest prefix of `s` made of base64 characters. */
  function Base64Span(s: Bytes): (n: nat)
    ensures n <= |s|
    ensures forall i | 0 <= i < n :: Base64.IsBase64Char(s[i])
    ensures n < |s| ==> !Base64.IsBase64Char(s[n])
  {
    if |s| == 0 || !Base64.IsBase64Char(s[0]) then 0 else 1 + Base64Span(s[1..])
  }

  /** Cuts an `encoded-name <address>` entry into its address and the base64
      payload of the encoded name. */
  function SplitEntry(e: Bytes): Option<(Bytes, Bytes)> {
    if |e| < 10 || e[..10] != WordPrefix then None
    else
      var n := 10 + Base64Span(e[10..]);
      if n + 4 < |e| && e[n..n + 2] == WordSuffix && e[n + 2..n + 4] == AddressOpen
         && e[|e| - 1..] == AddressClose
      then Some((e[n + 4..|e| - 1], e[10..n]))
      else None
  }

  /** Reads an `encoded-name <address>` entry back into its address and name. */
  function ParseNamedAddress(e: Bytes): Option<(Bytes, Bytes)> {
    match SplitEntry(e)
    case None => None
    case Some((address, payload)) =>
      match Base64.Decode(payload)
      case Some(name) => Some((address, name))
      case None => None
  }

  /** The span of base64 characters stops where a non-base64 byte follows. */
  lemma SpanStops(payload: Bytes, tail: Bytes)
    requires forall i | 0 <= i < |payload| :: Base64.IsBase64Char(payload[i])
    requires |tail| > 0 && !Base64.IsBase64Char(tail[0])
    ensures Base64Span(payload + tail) == |payload|
  {
    var s := payload + tail;
    assert s[|payload|] == tail[0];
    assert forall i | 0 <= i < |payload| :: s[i] == payload[i];
  }

  /** The three parts of a concatenation can be cut back out of it. */
  lemma CutThree(a: Bytes, b: Bytes, c: Bytes)
    ensures var s := a + b + c;
            && s[..|a|] == a
            && s[|a|..|a| + |b|] == b
            && s[|a| + |b|..] == c
  {
  }

  lemma Regroup(x: Bytes, a: Bytes, b: Bytes, c: Bytes, d: Bytes)
    ensures x + a + b + c + d == x + (a + b + c + d)
  {
  }

  /** A slice of a suffix is a slice of the whole. */
  lemma SliceOfSuffix(e: Bytes, n: int, tail: Bytes, i: int, j: int)
    requires 0 <= n <= |e| && e[n..] == tail && 0 <= i <= j <= |tail|
    ensures e[n + i..n + j] == tail[i..j]
  {
    forall k | 0 <= k < j - i
      ensures e[n + i..n + j][k] == tail[i..j][k]
    {
      assert e[n..][i + k] == e[n + i + k];
    }
  }

  /** The part of an entry after the encoded name's payload. */
  lemma TailShape(address: Bytes)
    ensures var tail := WordSuffix + AddressOpen + address + AddressClose;
            && |tail| == |address| + 5
            && tail[0] == '?' && tail[..2] == WordSuffix && tail[2..4] == AddressOpen
            && tail[4..|tail| - 1] == address && tail[|tail| - 1..] == AddressClose
  {
    var tail := WordSuffix + AddressOpen + address + AddressClose;
    CutThree(WordSuffix + AddressOpen, address, AddressClose);
  }

  /** Cutting a word prefix, a base64 payload and a well-formed tail gives
      back the address and the payload. */
  lemma SplitLayout(payload: Bytes, tail: Bytes, address: Bytes)
    requires forall i | 0 <= i < |payload| :: Base64.IsBase64Char(payload[i])
    requires |tail| == |address| + 5 && tail[0] == '?' && tail[..2] == WordSuffix
    requires tail[2..4] == AddressOpen && tail[4..|tail| - 1] == address && tail[|tail| - 1..] == AddressClose
    ensures SplitEntry(WordPrefix + payload + tail) == Some((address, payload))
  {
    var e := WordPrefix + payload + tail;
    CutThree(WordPrefix, payload, tail);
    assert e[10..] == payload + tail;
    SpanStops(payload, tail);
    var n := 10 + |payload|;
    assert e[n..] == tail;
    SliceOfSuffix(e, n, tail, 0, 2);
    SliceOfSuffix(e, n, tail, 2, 4);
    SliceOfSuffix(e, n, tail, 4, |tail| - 1);
    SliceOfSuffix(e, n, tail, |tail| - 1, |tail|);
  }

  /** An entry formatted with a truthy name determines both the address and
      the name it was formatted from. */
  lemma ParseEncodeAddress(address: Bytes, name: Option<Bytes>)
    requires Truthy(name)
    ensures ParseNamedAddress(EncodeAddress(address, name)) == Some((address, name.value))
  {
    var payload := Base64.Encode(name.value);
    Base64.DecodeEncode(name.value);
    assert EncodeString(name.value) == WordPrefix + payload + WordSuffix;
    Regroup(WordPrefix + payload, WordSuffix, AddressOpen, address, AddressClose);
    TailShape(address);
    SplitLayout(payload, WordSuffix + AddressOpen + address + AddressClose, address);
  }

  // ---------------------------------------------------------------------------
  // Body transfer encoding
  // ---------------------------------------------------------------------------

  /** `encodeBody`: base64 split into CRLF-terminated lines of at most 76
      characters, quoted-printable through `qp`, and the body itself for
      `7bit`, `8bit` and every other value. */
  function EncodeBody(body: Bytes, encoding: Bytes, qp: Bytes -> Bytes): (r: Bytes)
    ensures encoding == EncBase64 ==> r == Terminated(Chunks(Base64.Encode(body)))
    ensures encoding == EncBase64 ==> RemoveLineBreaks(r) == Base64.Encode(body)
    ensures encoding == EncBase64 ==> Base64.Decode(RemoveLineBreaks(r)) == Some(body)
    ensures encoding == EncQuotedPrintable ==> r == qp(body)
    ensures encoding != EncBase64 && encoding != EncQuotedPrintable ==> r == body
  {
    if encoding == EncBase64 then
      var payload := Base64.Encode(body);
      ChunkSplitUnsplit(payload);
      Base64.DecodeEncode(body);
      ChunkSplit(payload)
    else if encoding == EncQuotedPrintable then qp(body)
    else body
  }

  // ---------------------------------------------------------------------------
  // The composer
  // ---------------------------------------------------------------------------

  datatype Composer = Composer(
    headers: Table,
    to: seq<Bytes>,
    cc: seq<Bytes>,
    bcc: seq<Bytes>,
    subject: Bytes,
    body: Bytes,
    encoding: Bytes)

  /** The four arguments `send` hands to `mail()`. */
  datatype Message = Message(to: Bytes, subject: Bytes, body: Bytes, headers: Bytes)

  /** The three headers every composer starts with, the last one naming the
      current encoding. */
  predicate StartsWithDefaults(t: Table, encoding: Bytes) {
    && |t| >= 3
    && t[0] == Header(MimeVersionName, "1.0")
    && t[1] == Header(MailerName, "epMailer")
    && t[2] == Header(TransferEncodingName, encoding)
  }

  /** Only the known optional headers follow the first three. */
  predicate OnlyLaterNames(t: Table) {
    forall i | 3 <= i < |t| :: t[i].name in LaterNames
  }

  /** What holds of every composer the public methods can reach: unique header
      names; `MIME-Version`, `X-Mailer` and `Content-Transfer-Encoding` first,
      the last one agreeing with the truthy encoding field; only the known
      optional headers after them; and a `Cc` or `Bcc` header only once its
      list has an entry. */
  predicate Valid(c: Composer) {
    && UniqueNames(c.headers)
    && StartsWithDefaults(c.headers, c.encoding)
    && Truthy(Some(c.encoding))
    && OnlyLaterNames(c.headers)
    && (CcName in Names(c.headers) ==> |c.cc| > 0)
    && (BccName in Names(c.headers) ==> |c.bcc| > 0)
  }

  /** `$this->headers[$name] = $value` on the composer. */
  function SetHeader(c: Composer, name: Bytes, value: Bytes): (r: Composer)
    ensures Lookup(r.headers, name) == Some(value)
    ensures name in Names(c.headers) ==> Names(r.headers) == Names(c.headers)
    ensures name !in Names(c.headers) ==> r.headers == c.headers + [Header(name, value)]
    ensures forall n | n != name :: Lookup(r.headers, n) == Lookup(c.headers, n)
    ensures r.(headers := c.headers) == c
  {
    SetFrame(c.headers, name, value);
    if name !in Names(c.headers) then
      SetAppends(c.headers, name, value);
      c.(headers := Set(c.headers, name, value))
    else c.(headers := Set(c.headers, name, value))
  }

  lemma SetKeepsDefaults(t: Table, encoding: Bytes, name: Bytes, value: Bytes)
    requires StartsWithDefaults(t, encoding)
    requires name in LaterNames
    ensures StartsWithDefaults(Set(t, name, value), encoding)
  {
    assert t[0].name != name && t[1].name != name && t[2].name != name;
    SetFrame(t, name, value);
  }

  lemma SetKeepsLaterNames(t: Table, name: Bytes, value: Bytes)
    requires OnlyLaterNames(t)
    requires name in LaterNames
    ensures OnlyLaterNames(Set(t, name, value))
  {
    var r := Set(t, name, value);
    SetFrame(t, name, value);
    if name in Names(t) {
      forall i | 3 <= i < |r| ensures r[i].name in LaterNames {
        assert Names(r)[i] == Names(t)[i];
      }
    } else {
      SetAppends(t, name, value);
      forall i | 3 <= i < |r| ensures r[i].name in LaterNames {
        if i < |t| {
          assert r[i] == t[i];
        }
      }
    }
  }

  /** A name other than `name` is present after the write exactly when it was
      present before. */
  lemma SetKeepsPresence(t: Table, name: Bytes, value: Bytes, other: Bytes)
    requires other != name
    ensures other in Names(Set(t, name, value)) <==> other in Names(t)
  {
    if name !in Names(t) {
      NamesAppend(t, Header(name, value));
    }
  }

  /** Writing a header other than the first three, with a known name, keeps
      the composer valid as long as a `Cc`/`Bcc` write has a non-empty list. */
  lemma SetHeaderValid(c: Composer, name: Bytes, value: Bytes)
    requires Valid(c)
    requires name in LaterNames
    requires name == CcName ==> |c.cc| > 0
    requires name == BccName ==> |c.bcc| > 0
    ensures Valid(SetHeader(c, name, value))
  {
    SetUnique(c.headers, name, value);
    SetKeepsDefaults(c.headers, c.encoding, name, value);
    SetKeepsLaterNames(c.headers, name, value);
    if name != CcName {
      SetKeepsPresence(c.headers, name, value, CcName);
    }
    if name != BccName {
      SetKeepsPresence(c.headers, name, value, BccName);
    }
  }

  /** The constructor: subject `(no subject)`, then `encoding('quoted-printable')`
      on a table holding `MIME-Version` and `X-Mailer`. */
  function New(): (c: Composer)
    ensures Valid(c)
    ensures c.headers == [Header(MimeVersionName, "1.0"), Header(MailerName, "epMailer"),
                          Header(TransferEncodingName, EncQuotedPrintable)]
    ensures c.encoding == EncQuotedPrintable
    ensures c.subject == NoSubject && c.body == []
    ensures c.to == [] && c.cc == [] && c.bcc == []
  {
    var initial := Composer([Header(MimeVersionName, "1.0"), Header(MailerName, "epMailer")],
                            [], [], [], NoSubject, [], []);
    var c := Encoding(initial, Some(EncQuotedPrintable)).0;
    SetAppends(initial.headers, TransferEncodingName, EncQuotedPrintable);
    assert c.headers == initial.headers + [Header(TransferEncodingName, EncQuotedPrintable)];
    DefaultsValid(c);
    c
  }

  /** A composer holding only the three default headers is valid. */
  lemma DefaultsValid(c: Composer)
    requires c.headers == [Header(MimeVersionName, "1.0"), Header(MailerName, "epMailer"),
                           Header(TransferEncodingName, EncQuotedPrintable)]
    requires c.encoding == EncQuotedPrintable
    ensures Valid(c)
  {
    var ns := Names(c.headers);
    assert ns == [MimeVersionName, MailerName, TransferEncodingName];
    assert CcName !in ns && BccName !in ns;
  }

  /** `encoding($e)`: a truthy argument becomes the encoding field and the
      `Content-Transfer-Encoding` header and is returned; otherwise nothing
      changes and the current encoding is returned. */
  function Encoding(c: Composer, arg: Option<Bytes>): (r: (Composer, Bytes))
    ensures Truthy(arg) ==> r.1 == arg.value && r.0.encoding == arg.value
    ensures Truthy(arg) ==> Lookup(r.0.headers, TransferEncodingName) == Some(arg.value)
    ensures Truthy(arg) ==> forall n | n != TransferEncodingName :: Lookup(r.0.headers, n) == Lookup(c.headers, n)
    ensures Truthy(arg) && TransferEncodingName in Names(c.headers) ==> Names(r.0.headers) == Names(c.headers)
    ensures Truthy(arg) && TransferEncodingName !in Names(c.headers) ==> r.0.headers == c.headers + [Header(TransferEncodingName, arg.value)]
    ensures Truthy(arg) ==> r.0.(headers := c.headers, encoding := c.encoding) == c
    ensures !Truthy(arg) ==> r.0 == c && r.1 == c.encoding
    ensures Valid(c) ==> Valid(r.0)
  {
    if Truthy(arg) then
      var c' := c.(headers := Set(c.headers, TransferEncodingName, arg.value), encoding := arg.value);
      SetFrame(c.headers, TransferEncodingName, arg.value);
      assert TransferEncodingName !in Names(c.headers) ==> c'.headers == c.headers + [Header(TransferEncodingName, arg.value)] by {
        if TransferEncodingName !in Names(c.headers) { SetAppends(c.headers, TransferEncodingName, arg.value); }
      }
      assert Valid(c) ==> Valid(c') by {
        if Valid(c) { EncodingValid(c, arg.value); }
      }
      (c', arg.value)
    else (c, c.encoding)
  }

  /** Writing a truthy encoding changes only the third header's value, so the
      composer stays valid. */
  lemma EncodingValid(c: Composer, e: Bytes)
    requires Valid(c) && Truthy(Some(e))
    ensures Valid(c.(headers := Set(c.headers, TransferEncodingName, e), encoding := e))
  {
    var t := c.headers;
    assert Names(t)[2] == TransferEncodingName;
    SetInPlace(t, 2, e);
    SetFrame(t, TransferEncodingName, e);
    SetUnique(t, TransferEncodingName, e);
    var r := Set(t, TransferEncodingName, e);
    assert r == t[2 := Header(TransferEncodingName, e)];
    assert StartsWithDefaults(r, e);
    assert OnlyLaterNames(r) by {
      forall i | 3 <= i < |r| ensures r[i].name in LaterNames {
        assert r[i] == t[i];
      }
    }
  }

  /** `addRecipient`: appends one formatted entry to the `To` list only. */
  function AddRecipient(c: Composer, address: Bytes, name: Option<Bytes>): (r: Composer)
    ensures r.to == c.to + [EncodeAddress(address, name)]
    ensures r.(to := c.to) == c
    ensures Valid(c) ==> Valid(r)
  {
    c.(to := c.to + [EncodeAddress(address, name)])
  }

  /** `addCC`: appends one formatted entry to the `Cc` list only. */
  function AddCC(c: Composer, address: Bytes, name: Option<Bytes>): (r: Composer)
    ensures r.cc == c.cc + [EncodeAddress(address, name)]
    ensures r.(cc := c.cc) == c
    ensures Valid(c) ==> Valid(r)
  {
    c.(cc := c.cc + [EncodeAddress(address, name)])
  }

  /** `addBCC`: appends one formatted entry to the `Bcc` list only. */
  function AddBCC(c: Composer, address: Bytes, name: Option<Bytes>): (r: Composer)
    ensures r.bcc == c.bcc + [EncodeAddress(address, name)]
    ensures r.(bcc := c.bcc) == c
    ensures Valid(c) ==> Valid(r)
  {
    c.(bcc := c.bcc + [EncodeAddress(address, name)])
  }

  /** `subject($s)`: null reads the subject; any string, even `""`, replaces it. */
  function Subject(c: Composer, arg: Option<Bytes>): (r: (Composer, Bytes))
    ensures arg.None? ==> r.0 == c && r.1 == c.subject
    ensures arg.Some? ==> r.0 == c.(subject := arg.value) && r.1 == arg.value
    ensures Valid(c) ==> Valid(r.0)
  {
    match arg
    case None => (c, c.subject)
    case Some(s) => (c.(subject := s), s)
  }

  /** `from`: the `From` header holds exactly what `encodeAddress` makes of the
      arguments, though the source tests the name itself before calling it. */
  function From(c: Composer, address: Bytes, name: Option<Bytes>): (r: Composer)
    ensures Lookup(r.headers, FromName) == Some(EncodeAddress(address, name))
    ensures FromName !in Names(c.headers) ==> r.headers == c.headers + [Header(FromName, EncodeAddress(address, name))]
    ensures FromName in Names(c.headers) ==> Names(r.headers) == Names(c.headers)
    ensures r.(headers := c.headers) == c
    ensures forall n | n != FromName :: Lookup(r.headers, n) == Lookup(c.headers, n)
    ensures Valid(c) ==> Valid(r)
  {
    var value := if Truthy(name) then EncodeAddress(address, name) else address;
    assert Valid(c) ==> Valid(SetHeader(c, FromName, value)) by {
      if Valid(c) { SetHeaderValid(c, FromName, value); }
    }
    SetHeader(c, FromName, value)
  }

  /** `replyTo`: the `Reply-To` header holds exactly what `encodeAddress`
      makes of the arguments. */
  function ReplyTo(c: Composer, address: Bytes, name: Option<Bytes>): (r: Composer)
    ensures Lookup(r.headers, ReplyToName) == Some(EncodeAddress(address, name))
    ensures ReplyToName !in Names(c.headers) ==> r.headers == c.headers + [Header(ReplyToName, EncodeAddress(address, name))]
    ensures ReplyToName in Names(c.headers) ==> Names(r.headers) == Names(c.headers)
    ensures r.(headers := c.headers) == c
    ensures forall n | n != ReplyToName :: Lookup(r.headers, n) == Lookup(c.headers, n)
    ensures Valid(c) ==> Valid(r)
  {
    var value := if Truthy(name) then EncodeAddress(address, name) else address;
    assert Valid(c) ==> Valid(SetHeader(c, ReplyToName, value)) by {
      if Valid(c) { SetHeaderValid(c, ReplyToName, value); }
    }
    SetHeader(c, ReplyToName, value)
  }

  /** The private `body($b)`: null reads the body; any string replaces it. */
  function Body(c: Composer, arg: Option<Bytes>): (r: (Composer, Bytes))
    ensures arg.None? ==> r.0 == c && r.1 == c.body
    ensures arg.Some? ==> r.0 == c.(body := arg.value) && r.1 == arg.value
  {
    match arg
    case None => (c, c.body)
    case Some(b) => (c.(body := b), b)
  }

  /** `textBody($b)`: always sets `Content-Type` to plain text; a truthy
      argument is word-wrapped and stored, `""` or `"0"` is stored as given,
      and null leaves the body alone. Returns the resulting body. */
  function TextBody(c: Composer, arg: Option<Bytes>, wrap: Bytes -> Bytes): (r: (Composer, Bytes))
    ensures Lookup(r.0.headers, ContentTypeName) == Some(TextPlain)
    ensures ContentTypeName !in Names(c.headers) ==> r.0.headers == c.headers + [Header(ContentTypeName, TextPlain)]
    ensures ContentTypeName in Names(c.headers) ==> Names(r.0.headers) == Names(c.headers)
    ensures forall n | n != ContentTypeName :: Lookup(r.0.headers, n) == Lookup(c.headers, n)
    ensures Truthy(arg) ==> r.0.body == wrap(arg.value)
    ensures arg.Some? && !Truthy(arg) ==> r.0.body == arg.value
    ensures arg.None? ==> r.0.body == c.body
    ensures r.1 == r.0.body
    ensures r.0.(headers := c.headers, body := c.body) == c
    ensures Valid(c) ==> Valid(r.0)
  {
    var c' := SetHeader(c, ContentTypeName, TextPlain);
    assert Valid(c) ==> Valid(c') by {
      if Valid(c) { SetHeaderValid(c, ContentTypeName, TextPlain); }
    }
    Body(c', if Truthy(arg) then Some(wrap(arg.value)) else arg)
  }

  /** `htmlBody($b)`: always sets `Content-Type` to HTML; any string replaces
      the body unchanged and null leaves it alone. Returns the resulting body. */
  function HtmlBody(c: Composer, arg: Option<Bytes>): (r: (Composer, Bytes))
    ensures Lookup(r.0.headers, ContentTypeName) == Some(TextHtml)
    ensures ContentTypeName !in Names(c.headers) ==> r.0.headers == c.headers + [Header(ContentTypeName, TextHtml)]
    ensures ContentTypeName in Names(c.headers) ==> Names(r.0.headers) == Names(c.headers)
    ensures forall n | n != ContentTypeName :: Lookup(r.0.headers, n) == Lookup(c.headers, n)
    ensures arg.Some? ==> r.0.body == arg.value
    ensures arg.None? ==> r.0.body == c.body
    ensures r.1 == r.0.body
    ensures r.0.(headers := c.headers, body := c.body) == c
    ensures Valid(c) ==> Valid(r.0)
  {
    var c' := SetHeader(c, ContentTypeName, TextHtml);
    assert Valid(c) ==> Valid(c') by {
      if Valid(c) { SetHeaderValid(c, ContentTypeName, TextHtml); }
    }
    Body(c', arg)
  }

  // ---------------------------------------------------------------------------
  // send
  // ---------------------------------------------------------------------------

  /** The first step of `send`: `Cc` and `Bcc` headers written from their lists,
      each only when its list is non-empty. */
  function Finalize(c: Composer): (r: Composer)
    ensures |c.cc| > 0 ==> Lookup(r.headers, CcName) == Some(Implode(Separator, c.cc))
    ensures |c.cc| == 0 ==> Lookup(r.headers, CcName) == Lookup(c.headers, CcName)
    ensures |c.bcc| > 0 ==> Lookup(r.headers, BccName) == Some(Implode(Separator, c.bcc))
    ensures |c.bcc| == 0 ==> Lookup(r.headers, BccName) == Lookup(c.headers, BccName)
    ensures forall n | n != CcName && n != BccName :: Lookup(r.headers, n) == Lookup(c.headers, n)
    ensures Names(r.headers) == Names(c.headers)
                                + (if |c.cc| > 0 && CcName !in Names(c.headers) then [CcName] else [])
                                + (if |c.bcc| > 0 && BccName !in Names(c.headers) then [BccName] else [])
    ensures forall i | 0 <= i < |c.headers| && c.headers[i].name != CcName && c.headers[i].name != BccName
              :: r.headers[i] == c.headers[i]
    ensures CcName !in Names(c.headers) && BccName !in Names(c.headers) ==>
              r.headers == c.headers
                           + (if |c.cc| > 0 then [Header(CcName, Implode(Separator, c.cc))] else [])
                           + (if |c.bcc| > 0 then [Header(BccName, Implode(Separator, c.bcc))] else [])
    ensures r.(headers := c.headers) == c
  {
    var c1 := if |c.cc| > 0 then SetHeader(c, CcName, Implode(Separator, c.cc)) else c;
    var r := if |c1.bcc| > 0 then SetHeader(c1, BccName, Implode(Separator, c1.bcc)) else c1;
    FinalizeSteps(c.headers, c.cc, c.bcc);
    r
  }

  /** The two writes of `send` as table facts: a header is appended only when
      its list is non-empty and its name is new, `Cc` before `Bcc`, and every
      other entry stays where it was. */
  lemma FinalizeSteps(t: Table, cc: seq<Bytes>, bcc: seq<Bytes>)
    ensures var t2 := SetIf(SetIf(t, |cc| > 0, CcName, Implode(Separator, cc)), |bcc| > 0, BccName, Implode(Separator, bcc));
            Names(t2) == Names(t)
                         + (if |cc| > 0 && CcName !in Names(t) then [CcName] else [])
                         + (if |bcc| > 0 && BccName !in Names(t) then [BccName] else [])
    ensures var t2 := SetIf(SetIf(t, |cc| > 0, CcName, Implode(Separator, cc)), |bcc| > 0, BccName, Implode(Separator, bcc));
            forall i | 0 <= i < |t| && t[i].name != CcName && t[i].name != BccName :: t2[i] == t[i]
    ensures var t2 := SetIf(SetIf(t, |cc| > 0, CcName, Implode(Separator, cc)), |bcc| > 0, BccName, Implode(Separator, bcc));
            CcName !in Names(t) && BccName !in Names(t) ==>
              t2 == t
                    + (if |cc| > 0 then [Header(CcName, Implode(Separator, cc))] else [])
                    + (if |bcc| > 0 then [Header(BccName, Implode(Separator, bcc))] else [])
  {
    var t1 := SetIf(t, |cc| > 0, CcName, Implode(Separator, cc));
    SetIfLayout(t, |cc| > 0, CcName, Implode(Separator, cc));
    SetIfLayout(t1, |bcc| > 0, BccName, Implode(Separator, bcc));
    assert |t| <= |t1|;
  }

  /** The header writes of `send` keep a composer valid; in particular an empty
      `Cc` or `Bcc` list still has no header. */
  lemma FinalizeValid(c: Composer)
    requires Valid(c)
    ensures Valid(Finalize(c))
    ensures |c.cc| == 0 ==> CcName !in Names(Finalize(c).headers)
    ensures |c.bcc| == 0 ==> BccName !in Names(Finalize(c).headers)
  {
    var c1 := if |c.cc| > 0 then SetHeader(c, CcName, Implode(Separator, c.cc)) else c;
    if |c.cc| > 0 {
      SetHeaderValid(c, CcName, Implode(Separator, c.cc));
    }
    if |c1.bcc| > 0 {
      SetHeaderValid(c1, BccName, Implode(Separator, c1.bcc));
    }
  }

  /** `send()` up to the `mail()` call: the composer after its header writes,
      and the recipients, encoded subject, encoded body and header block. */
  function Send(c: Composer, qp: Bytes -> Bytes): (r: (Composer, Message))
    ensures r.0 == Finalize(c)
    ensures r.1.to == Implode(Separator, c.to)
    ensures c.to == [] ==> r.1.to == []
    ensures r.1.subject == EncodeString(c.subject)
    ensures r.1.body == EncodeBody(c.body, c.encoding, qp)
    ensures r.1.headers == Render(r.0.headers)
    ensures Valid(c) ==> Valid(r.0)
    ensures Valid(c) && |c.cc| == 0 ==> CcName !in Names(r.0.headers)
    ensures Valid(c) && |c.bcc| == 0 ==> BccName !in Names(r.0.headers)
  {
    var c' := Finalize(c);
    var m := Message(
      Implode(Separator, c'.to),
      EncodeString(c'.subject),
      EncodeBody(c'.body, c'.encoding, qp),
      Render(c'.headers));
    assert Valid(c) ==> Valid(c') by {
      if Valid(c) { FinalizeValid(c); }
    }
    (c', m)
  }
}
