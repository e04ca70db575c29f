/** Properties that relate several calls on one composer. */
module MailerProperties {
  import opened PhpStrings
  import opened HeaderTable
  import opened Mailer

  /** A getter call after a setter call returns what was set. */
  lemma SubjectGetAfterSet(c: Composer, s: Bytes)
    ensures Subject(Subject(c, Some(s)).0, None).1 == s
  {
  }

  lemma EncodingGetAfterSet(c: Composer, e: Bytes)
    requires Truthy(Some(e))
    ensures Encoding(Encoding(c, Some(e)).0, None).1 == e
  {
  }

  /** Whichever body setter ran last decides the one `Content-Type` header. */
  lemma ContentTypeLastCallWins(c: Composer, text: Option<Bytes>, html: Option<Bytes>, wrap: Bytes -> Bytes)
    requires Valid(c)
    ensures var c1 := TextBody(c, text, wrap).0;
            var c2 := HtmlBody(c1, html).0;
            && Valid(c2)
            && Lookup(c2.headers, ContentTypeName) == Some(TextHtml)
            && Lookup(HtmlBody(c, html).0.headers, ContentTypeName) == Some(TextHtml)
            && Lookup(TextBody(c2, None, wrap).0.headers, ContentTypeName) == Some(TextPlain)
            && TextBody(c2, None, wrap).0.body == c2.body
  {
  }

  /** Each `addCC` between two sends shows up at the end of the next `Cc`
      header, after the earlier entries and a `", "`. */
  lemma {:induction false} CcAccumulates(c: Composer, address: Bytes, name: Option<Bytes>, qp: Bytes -> Bytes)
    ensures var entry := EncodeAddress(address, name);
            Lookup(Send(AddCC(c, address, name), qp).0.headers, CcName)
              == Some(if |c.cc| == 0 then entry else Implode(Separator, c.cc) + Separator + entry)
  {
    var entry := EncodeAddress(address, name);
    if |c.cc| == 0 {
      assert c.cc + [entry] == [entry];
    } else {
      ImplodeAppend(Separator, c.cc, entry);
    }
  }

  /** Sending again without changes in between re-renders the same message and
      leaves the composer as the first send left it. */
  lemma {:induction false} SendIdempotent(c: Composer, qp: Bytes -> Bytes)
    ensures Send(Send(c, qp).0, qp) == Send(c, qp)
  {
    var c1 := Send(c, qp).0;
    assert c1 == Finalize(c);
    var t := c1.headers;
    if |c.cc| > 0 {
      SetExisting(t, CcName, Implode(Separator, c.cc));
    }
    var t' := if |c.cc| > 0 then Set(t, CcName, Implode(Separator, c.cc)) else t;
    assert t' == t;
    if |c.bcc| > 0 {
      SetExisting(t, BccName, Implode(Separator, c.bcc));
    }
    assert Finalize(c1) == c1;
  }

  /** The two lines every header block starts with. */
  function DefaultLines(): (r: Bytes)
    ensures r == Line(Header(MimeVersionName, "1.0")) + Line(Header(MailerName, "epMailer"))
  {
    var t := [Header(MimeVersionName, "1.0"), Header(MailerName, "epMailer")];
    LinesOfTwo(t);
    Lines(t)
  }

  /** The header block of a valid composer always opens with the
      `MIME-Version: 1.0` and `X-Mailer: epMailer` lines and then the name of
      the `Content-Transfer-Encoding` field. */
  lemma {:induction false} HeaderBlockOpensWithDefaults(c: Composer, qp: Bytes -> Bytes)
    requires Valid(c)
    ensures var h := Send(c, qp).1.headers;
            var opening := DefaultLines() + TransferEncodingName + ":";
            |opening| <= |h| && h[..|opening|] == opening
  {
    FinalizeValid(c);
    var t := Finalize(c).headers;
    RenderOpensWith(t, 2);
    assert t[..2] == [Header(MimeVersionName, "1.0"), Header(MailerName, "epMailer")];
  }

  /** The header table of `new epMailer()` followed by `textBody(...)`: the
      three defaults in order, then `Content-Type`. */
  lemma TextBodyAfterNew(arg: Option<Bytes>, wrap: Bytes -> Bytes)
    ensures TextBody(New(), arg, wrap).0.headers == PlainTextTable()
  {
    NoContentTypeAtFirst();
  }

  /** A fresh composer has no `Content-Type` header. */
  lemma NoContentTypeAtFirst()
    ensures ContentTypeName !in Names(New().headers)
  {
    var t := New().headers;
    assert ContentTypeName != t[0].name && ContentTypeName != t[1].name && ContentTypeName != t[2].name;
  }

  /** The header table that `new epMailer()` and one `textBody` call leave. */
  function PlainTextTable(): (t: Table)
    ensures |t| == 4 && t[3] == Header(ContentTypeName, TextPlain)
    ensures t[..2] == [Header(MimeVersionName, "1.0"), Header(MailerName, "epMailer")]
    ensures t[2] == Header(TransferEncodingName, EncQuotedPrintable)
  {
    [Header(MimeVersionName, "1.0"), Header(MailerName, "epMailer"),
     Header(TransferEncodingName, EncQuotedPrintable), Header(ContentTypeName, TextPlain)]
  }

  /** That table renders as the two default lines, the transfer-encoding line
      and the content-type line without its CRLF. */
  lemma {:induction false} PlainTextTableRender()
    ensures Render(PlainTextTable()) == DefaultLines() + Line(Header(TransferEncodingName, EncQuotedPrintable))
                                          + ContentTypeName + ": " + TextPlain
  {
    var t := PlainTextTable();
    assert !IsTrimmable(TextPlain[|TextPlain| - 1]);
    RenderLast(t);
    var front := t[..3];
    assert front[..2] == t[..2];
    assert Lines(front) == Lines(front[..2]) + Line(front[2]);
  }

  /** The composer after `new epMailer()`, `addRecipient('bob@example.com')`
      and `textBody('hi')`. */
  lemma {:induction false} PlainTextComposer(wrap: Bytes -> Bytes)
    ensures var c := TextBody(AddRecipient(New(), "bob@example.com", None), Some("hi"), wrap).0;
            && c.headers == PlainTextTable()
            && c.to == ["bob@example.com"] && c.cc == [] && c.bcc == []
            && c.subject == NoSubject && c.body == wrap("hi") && c.encoding == EncQuotedPrintable
  {
    var c0 := AddRecipient(New(), "bob@example.com", None);
    assert c0.headers == New().headers;
    TextBodyAfterNew(Some("hi"), wrap);
  }

  /** The message sent from that composer: four header lines with no trailing
      CRLF, the recipient verbatim, the default subject encoded and the wrapped
      body handed to the quoted-printable encoder. */
  lemma {:induction false} DefaultMessage(wrap: Bytes -> Bytes, qp: Bytes -> Bytes)
    ensures var c := TextBody(AddRecipient(New(), "bob@example.com", None), Some("hi"), wrap).0;
            var m := Send(c, qp).1;
            && m.to == "bob@example.com"
            && m.subject == EncodeString(NoSubject)
            && m.body == qp(wrap("hi"))
            && m.headers == DefaultLines() + Line(Header(TransferEncodingName, EncQuotedPrintable))
                            + ContentTypeName + ": " + TextPlain
  {
    var c := TextBody(AddRecipient(New(), "bob@example.com", None), Some("hi"), wrap).0;
    PlainTextComposer(wrap);
    assert Finalize(c) == c;
    PlainTextTableRender();
  }

  /** One `addCC` without a name on a composer that had none gives a `Cc`
      header holding exactly that address. */
  lemma SingleCc(c: Composer, address: Bytes, qp: Bytes -> Bytes)
    requires c.cc == []
    ensures Lookup(Send(AddCC(c, address, None), qp).0.headers, CcName) == Some(address)
  {
    CcAccumulates(c, address, None, qp);
  }
}
