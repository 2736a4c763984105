/** The message encoding of `src/content/utils/gmailApi.ts` (and its copy in
    `src/background/index.ts`): the MIME text built from the email fields, laid
    out as RFC 5322 sections 2.1-2.2 describe (CRLF-terminated header fields, an
    empty line, the body), and the `raw` value sent to the mail API, which is
    standard base64 (section 4 of RFC 4648) of the UTF-8 bytes (RFC 3629) of that
    text, post-processed into the URL-safe alphabet of section 5 of RFC 4648
    with the padding dropped as section 3.2 allows. */
module GmailApi {
  import opened Wrappers
  import opened Text

  /** The fields the builder destructures; `to`, `cc` and `bcc` may be absent. */
  datatype EmailData = EmailData(
    to: Option<string>, cc: Option<string>, bcc: Option<string>,
    subject: string, body: string)

  /** JavaScript truthiness of an optional string: present and non-empty. */
  predicate Truthy(o: Option<string>) {
    o.Some? && o.value != ""
  }

  const CRLF: string := "\r\n"
  const ContentTypeField: string := "Content-Type: text/html; charset=UTF-8"

  // ---------------------------------------------------------------- the builder

  /** `buildMimeMessage`: the header string grows by successive `+=` of
      CRLF-terminated fields, then one more CRLF, then the body is appended. */
  function BuildMimeMessage(m: EmailData): string {
    var h1 := AddOptional("", "To: ", m.to);
    var h2 := AddOptional(h1, "Cc: ", m.cc);
    var h3 := AddOptional(h2, "Bcc: ", m.bcc);
    var h4 := AddField(h3, "Subject: " + m.subject);
    var h5 := AddField(h4, ContentTypeField);
    var h6 := h5 + CRLF;
    h6 + m.body
  }

  /** `headers += `${field}\r\n``. */
  function AddField(headers: string, field: string): string {
    headers + field + CRLF
  }

  /** `if (value) headers += `${name}${value}\r\n``. */
  function AddOptional(headers: string, name: string, o: Option<string>): string {
    if Truthy(o) then AddField(headers, name + o.value) else headers
  }

  /** The header fields the message is meant to carry, in order: To, Cc and Bcc
      only when given and non-empty, then Subject (always, even when empty), then
      the content type. */
  function HeaderFields(m: EmailData): seq<string> {
    OptionalField("To: ", m.to) + OptionalField("Cc: ", m.cc) + OptionalField("Bcc: ", m.bcc)
    + ["Subject: " + m.subject, ContentTypeField]
  }

  function OptionalField(name: string, o: Option<string>): seq<string> {
    if Truthy(o) then [name + o.value] else []
  }

  /** Every line followed by CRLF. */
  function Terminated(lines: seq<string>): string {
    if lines == [] then "" else lines[0] + CRLF + Terminated(lines[1..])
  }

  lemma TerminatedAppend(a: seq<string>, b: seq<string>)
    ensures Terminated(a + b) == Terminated(a) + Terminated(b)
  {
    if a == [] {
      assert a + b == b;
    } else {
      assert (a + b)[0] == a[0];
      assert (a + b)[1..] == a[1..] + b;
      TerminatedAppend(a[1..], b);
    }
  }

  lemma TerminatedOne(line: string)
    ensures Terminated([line]) == line + CRLF
  {
    assert [line][1..] == [];
  }

  /** Adding a field to a header block extends its list of fields. */
  lemma AddFieldTerminated(lines: seq<string>, field: string)
    ensures AddField(Terminated(lines), field) == Terminated(lines + [field])
  {
    TerminatedAppend(lines, [field]);
    TerminatedOne(field);
  }

  /** Adding an optional field, if given, extends the list by `OptionalField`. */
  lemma AddOptionalField(lines: seq<string>, name: string, o: Option<string>)
    ensures AddOptional(Terminated(lines), name, o) == Terminated(lines + OptionalField(name, o))
  {
    if Truthy(o) {
      AddFieldTerminated(lines, name + o.value);
    } else {
      assert lines + OptionalField(name, o) == lines;
    }
  }

  /** The builder's output is the header block, each field CRLF-terminated, then
      the empty line, then the body verbatim. */
  lemma {:induction false} BuildMimeLayout(m: EmailData)
    ensures BuildMimeMessage(m) == Terminated(HeaderFields(m)) + CRLF + m.body
  {
    var l1 := OptionalField("To: ", m.to);
    var l2 := l1 + OptionalField("Cc: ", m.cc);
    var l3 := l2 + OptionalField("Bcc: ", m.bcc);
    var l4 := l3 + ["Subject: " + m.subject];
    var l5 := l4 + [ContentTypeField];
    var h1 := AddOptional("", "To: ", m.to);
    var h2 := AddOptional(h1, "Cc: ", m.cc);
    var h3 := AddOptional(h2, "Bcc: ", m.bcc);
    var h4 := AddField(h3, "Subject: " + m.subject);
    var h5 := AddField(h4, ContentTypeField);
    assert h1 == Terminated(l1) by {
      AddOptionalField([], "To: ", m.to);
      assert [] + l1 == l1;
    }
    assert h2 == Terminated(l2) by { AddOptionalField(l1, "Cc: ", m.cc); }
    assert h3 == Terminated(l3) by { AddOptionalField(l2, "Bcc: ", m.bcc); }
    assert h4 == Terminated(l4) by { AddFieldTerminated(l3, "Subject: " + m.subject); }
    assert h5 == Terminated(l5) by { AddFieldTerminated(l4, ContentTypeField); }
    assert l5 == HeaderFields(m);
  }

  /** The output ends with the content type field, the empty line and the body. */
  lemma BuildMimeEndsWithBody(m: EmailData)
    ensures EndsWith(BuildMimeMessage(m), ContentTypeField + CRLF + CRLF + m.body)
  {
    BuildMimeLayout(m);
    var h := HeaderFields(m);
    var front := h[..|h| - 1];
    assert h == front + [ContentTypeField];
    TerminatedAppend(front, [ContentTypeField]);
    TerminatedOne(ContentTypeField);
    var r := BuildMimeMessage(m);
    var suffix := ContentTypeField + CRLF + CRLF + m.body;
    assert r == Terminated(front) + suffix;
    assert r[|r| - |suffix|..] == suffix;
  }

  /** To, Cc and Bcc fields appear exactly for the non-empty fields, the Subject
      field is always second to last, and the content type is last. */
  lemma HeaderFieldsShape(m: EmailData)
    ensures var h := HeaderFields(m);
      && |h| == 2 + (if Truthy(m.to) then 1 else 0) + (if Truthy(m.cc) then 1 else 0)
                  + (if Truthy(m.bcc) then 1 else 0)
      && h[|h| - 2] == "Subject: " + m.subject && h[|h| - 1] == ContentTypeField
      && (Truthy(m.to) <==> StartsWith(h[0], "To: "))
      && (Truthy(m.to) ==> h[0] == "To: " + m.to.value)
  {
    var h := HeaderFields(m);
    if !Truthy(m.to) {
      assert h[0][..4] != "To: " by {
        if Truthy(m.cc) { assert h[0][..4] == "Cc: "; }
        else if Truthy(m.bcc) { assert h[0][..4] == "Bcc:"; }
        else { assert h[0][..4] == "Subj"; }
      }
    }
  }

  // ---------------------------------------------------------------- reading the layout back

  predicate NoCR(s: string) {
    forall i :: 0 <= i < |s| ==> s[i] != '\r'
  }

  /** A reader for the layout: CRLF-terminated lines up to the first empty line;
      what follows that empty line is the body. */
  function ParseMessage(s: string): Option<(seq<string>, string)>
    decreases |s|
  {
    var i := IndexOf(s, CRLF);
    if i < 0 then None
    else if i == 0 then Some(([], s[2..]))
    else
      match ParseMessage(s[i + 2..])
      case None => None
      case Some(parsed) => Some(([s[..i]] + parsed.0, parsed.1))
  }

  /** The first CRLF of `line + CRLF + rest` is the one after `line` when the
      line has no carriage return. */
  lemma FirstLineBreak(line: string, rest: string)
    requires NoCR(line)
    ensures IndexOf(line + CRLF + rest, CRLF) == |line|
  {
    var s := line + CRLF + rest;
    assert s[|line|..|line| + 2] == CRLF;
    assert OccursAt(s, CRLF, |line|);
    forall i | 0 <= i < |line| ensures !OccursAt(s, CRLF, i) {
      assert s[i] == line[i];
    }
  }

  lemma {:induction false} ParseTerminated(lines: seq<string>, body: string)
    requires LinesOk(lines)
    ensures ParseMessage(Terminated(lines) + CRLF + body) == Some((lines, body))
  {
    var s := Terminated(lines) + CRLF + body;
    if lines == [] {
      FirstLineBreak("", body);
    } else {
      var rest := Terminated(lines[1..]) + CRLF + body;
      assert s == lines[0] + CRLF + rest;
      FirstLineBreak(lines[0], rest);
      assert s[|lines[0]| + 2..] == rest;
      assert s[..|lines[0]|] == lines[0];
      ParseTerminated(lines[1..], body);
      assert [lines[0]] + lines[1..] == lines;
    }
  }

  /** When no header value has a carriage return, reading the built message
      back gives exactly the intended header fields and the body. */
  lemma MimeRoundTrip(m: EmailData)
    requires m.to.Some? ==> NoCR(m.to.value)
    requires m.cc.Some? ==> NoCR(m.cc.value)
    requires m.bcc.Some? ==> NoCR(m.bcc.value)
    requires NoCR(m.subject)
    ensures ParseMessage(BuildMimeMessage(m)) == Some((HeaderFields(m), m.body))
  {
    BuildMimeLayout(m);
    var to, cc, bcc := OptionalField("To: ", m.to), OptionalField("Cc: ", m.cc), OptionalField("Bcc: ", m.bcc);
    var tail := ["Subject: " + m.subject, ContentTypeField];
    OptionalFieldOk("To: ", m.to);
    OptionalFieldOk("Cc: ", m.cc);
    OptionalFieldOk("Bcc: ", m.bcc);
    TailOk(m.subject);
    LinesOkAppend(to, cc);
    LinesOkAppend(to + cc, bcc);
    LinesOkAppend(to + cc + bcc, tail);
    ParseTerminated(HeaderFields(m), m.body);
  }

  /** Lines the reader can take back: non-empty and free of carriage returns. */
  predicate LinesOk(lines: seq<string>) {
    forall k :: 0 <= k < |lines| ==> lines[k] != "" && NoCR(lines[k])
  }

  lemma LinesOkAppend(a: seq<string>, b: seq<string>)
    requires LinesOk(a) && LinesOk(b)
    ensures LinesOk(a + b)
  {
    forall k | 0 <= k < |a + b| ensures (a + b)[k] != "" && NoCR((a + b)[k]) {
      if k >= |a| { assert (a + b)[k] == b[k - |a|]; }
    }
  }

  /** The Subject field and the content type field are readable lines. */
  lemma TailOk(subject: string)
    requires NoCR(subject)
    ensures LinesOk(["Subject: " + subject, ContentTypeField])
  {
    NoCRAppend("Subject: ", subject);
    assert NoCR(ContentTypeField);
  }

  lemma OptionalFieldOk(name: string, o: Option<string>)
    requires NoCR(name) && (o.Some? ==> NoCR(o.value))
    ensures LinesOk(OptionalField(name, o))
  {
    if Truthy(o) {
      NoCRAppend(name, o.value);
    }
  }

  lemma NoCRAppend(a: string, b: string)
    requires NoCR(a) && NoCR(b)
    ensures NoCR(a + b)
  {
    forall i | 0 <= i < |a + b| ensures (a + b)[i] != '\r' {
      if i >= |a| { assert (a + b)[i] == b[i - |a|]; }
    }
  }

  // ---------------------------------------------------------------- UTF-8 and base64

  type Byte = x: int | 0 <= x < 256

  /** The UTF-8 bytes of one character (section 3 of RFC 3629). */
  function Utf8Char(c: char): (r: seq<Byte>)
    ensures 1 <= |r| <= 4
    ensures c as int < 0x80 ==> r == [c as int]
  {
    var cp := c as int;
    if cp < 0x80 then [cp]
    else if cp < 0x800 then [0xC0 + cp / 64, 0x80 + cp % 64]
    else if cp < 0x1_0000 then [0xE0 + cp / 4096, 0x80 + (cp / 64) % 64, 0x80 + cp % 64]
    else [0xF0 + cp / 262144, 0x80 + (cp / 4096) % 64, 0x80 + (cp / 64) % 64, 0x80 + cp % 64]
  }

  /** `unescape(encodeURIComponent(s))`, read as bytes: the UTF-8 encoding of `s`. */
  function Utf8Encode(s: string): seq<Byte> {
    if s == [] then [] else Utf8Char(s[0]) + Utf8Encode(s[1..])
  }

  /** The standard alphabet, Table 1 of RFC 4648. */
  function AlphabetChar(k: nat): (c: char)
    requires k < 64
    ensures IsBase64Char(c)
  {
    if k < 26 then ('A' as int + k) as char
    else if k < 52 then ('a' as int + (k - 26)) as char
    else if k < 62 then ('0' as int + (k - 52)) as char
    else if k == 62 then '+'
    else '/'
  }

  predicate IsBase64Char(c: char) {
    ('A' <= c <= 'Z') || ('a' <= c <= 'z') || ('0' <= c <= '9') || c == '+' || c == '/'
  }

  /** One full group: three bytes become four characters. */
  function EncodeGroup(b0: Byte, b1: Byte, b2: Byte): (r: string)
    ensures |r| == 4 && forall i :: 0 <= i < 4 ==> IsBase64Char(r[i])
  {
    [AlphabetChar(b0 / 4), AlphabetChar((b0 % 4) * 16 + b1 / 16),
     AlphabetChar((b1 % 16) * 4 + b2 / 64), AlphabetChar(b2 % 64)]
  }

  /** `btoa` on a byte string: standard base64 with `=` padding. */
  function Base64Encode(b: seq<Byte>): string
    decreases |b|
  {
    if |b| == 0 then ""
    else if |b| == 1 then
      [AlphabetChar(b[0] / 4), AlphabetChar((b[0] % 4) * 16)] + "=="
    else if |b| == 2 then
      [AlphabetChar(b[0] / 4), AlphabetChar((b[0] % 4) * 16 + b[1] / 16),
       AlphabetChar((b[1] % 16) * 4)] + "="
    else
      EncodeGroup(b[0], b[1], b[2]) + Base64Encode(b[3..])
  }

  /** The number of `=` padding characters at the end of a base64 string (at most two). */
  function PadCount(s: string): nat {
    if |s| >= 2 && s[|s| - 2] == '=' then 2
    else if |s| >= 1 && s[|s| - 1] == '=' then 1
    else 0
  }

  /** A standard base64 string: a multiple of four characters, all from the
      alphabet except one or two trailing `=`. */
  predicate WellFormedBase64(s: string) {
    && |s| % 4 == 0
    && (PadCount(s) == 2 ==> s[|s| - 1] == '=')
    && forall i :: 0 <= i < |s| - PadCount(s) ==> IsBase64Char(s[i])
  }

  lemma WellFormedPrepend(g: string, t: string)
    requires |g| == 4 && forall i :: 0 <= i < 4 ==> IsBase64Char(g[i])
    requires WellFormedBase64(t)
    ensures WellFormedBase64(g + t)
  {
    var r := g + t;
    if |t| == 0 {
      assert r == g;
    } else {
      assert r[|r| - 1] == t[|t| - 1] && r[|r| - 2] == t[|t| - 2];
      assert PadCount(r) == PadCount(t);
      forall i | 0 <= i < |r| - PadCount(r) ensures IsBase64Char(r[i]) {
        if i >= 4 { assert r[i] == t[i - 4]; }
      }
    }
  }

  /** `btoa` produces a well-formed base64 string of 4 characters per started
      group of three bytes. */
  lemma {:induction false} Base64EncodeWellFormed(b: seq<Byte>)
    ensures |Base64Encode(b)| == 4 * ((|b| + 2) / 3)
    ensures WellFormedBase64(Base64Encode(b))
    decreases |b|
  {
    if |b| >= 3 {
      var g := EncodeGroup(b[0], b[1], b[2]);
      Base64EncodeWellFormed(b[3..]);
      assert Base64Encode(b) == g + Base64Encode(b[3..]);
      assert (|b| + 2) / 3 == (|b[3..]| + 2) / 3 + 1;
      WellFormedPrepend(g, Base64Encode(b[3..]));
    } else {
      Base64EncodeShort(b);
    }
  }

  /** The last, partial group: one or two bytes give two or three characters
      and two or one `=`. */
  lemma Base64EncodeShort(b: seq<Byte>)
    requires |b| < 3
    ensures |Base64Encode(b)| == 4 * ((|b| + 2) / 3)
    ensures WellFormedBase64(Base64Encode(b))
  {
    var r := Base64Encode(b);
    if |b| == 1 {
      assert r[2] == '=' && r[3] == '=';
      assert PadCount(r) == 2;
      assert IsBase64Char(r[0]) && IsBase64Char(r[1]);
    } else if |b| == 2 {
      assert r[2] != '=' && r[3] == '=';
      assert PadCount(r) == 1;
      assert IsBase64Char(r[0]) && IsBase64Char(r[1]) && IsBase64Char(r[2]);
    }
  }

  // ---------------------------------------------------------------- the URL-safe post-processing

  /** `s.replace(/x/g, y)` for single characters x and y. */
  function ReplaceAllChar(s: string, x: char, y: char): (r: string)
    ensures |r| == |s|
    ensures forall i :: 0 <= i < |s| ==> r[i] == if s[i] == x then y else s[i]
  {
    if s == [] then [] else [if s[0] == x then y else s[0]] + ReplaceAllChar(s[1..], x, y)
  }

  /** `.replace(/\+/g, '-').replace(/\//g, '_')`. */
  function ToUrlAlphabet(s: string): (r: string)
    ensures |r| == |s|
    ensures forall i :: 0 <= i < |s| ==>
      r[i] == if s[i] == '+' then '-' else if s[i] == '/' then '_' else s[i]
  {
    ReplaceAllChar(ReplaceAllChar(s, '+', '-'), '/', '_')
  }

  /** The opposite character mapping. */
  function FromUrlAlphabet(u: string): (r: string)
    ensures |r| == |u|
    ensures forall i :: 0 <= i < |u| ==>
      r[i] == if u[i] == '-' then '+' else if u[i] == '_' then '/' else u[i]
  {
    ReplaceAllChar(ReplaceAllChar(u, '-', '+'), '_', '/')
  }

  /** `s.replace(/=+$/, '')`: the trailing run of `=` removed. */
  function StripTrailingEquals(s: string): (r: string)
    ensures |r| <= |s| && r == s[..|r|]
    ensures r == [] || r[|r| - 1] != '='
    ensures forall i :: |r| <= i < |s| ==> s[i] == '='
  {
    if s != [] && s[|s| - 1] == '=' then StripTrailingEquals(s[..|s| - 1]) else s
  }

  /** The whole chain applied to the `btoa` output. */
  function Base64UrlFromBase64(s: string): (r: string)
    ensures forall i :: 0 <= i < |r| ==> r[i] != '+' && r[i] != '/'
    ensures r == [] || r[|r| - 1] != '='
    ensures |r| <= |s|
  {
    StripTrailingEquals(ToUrlAlphabet(s))
  }

  /** The inverse direction: back to the standard alphabet, re-padded to a
      multiple of four. */
  function Base64FromBase64Url(u: string): string {
    var t := FromUrlAlphabet(u);
    t + EqualsRun((4 - |t| % 4) % 4)
  }

  /** `n` padding characters. */
  function EqualsRun(n: nat): (r: string)
    ensures |r| == n && forall i :: 0 <= i < n ==> r[i] == '='
  {
    seq(n, _ => '=')
  }

  predicate IsBase64UrlChar(c: char) {
    ('A' <= c <= 'Z') || ('a' <= c <= 'z') || ('0' <= c <= '9') || c == '-' || c == '_'
  }

  /** Stripping the trailing `=` run of `core + pad` leaves `core` when `core`
      does not end in `=`. */
  lemma StripEqualsExact(core: string, pad: string)
    requires core == [] || core[|core| - 1] != '='
    requires forall i :: 0 <= i < |pad| ==> pad[i] == '='
    ensures StripTrailingEquals(core + pad) == core
    decreases |pad|
  {
    if pad != [] {
      assert (core + pad)[..|core + pad| - 1] == core + pad[..|pad| - 1];
      StripEqualsExact(core, pad[..|pad| - 1]);
    } else {
      assert core + pad == core;
    }
  }

  /** Post-processing a standard base64 string maps each alphabet character one
      for one into the URL-safe alphabet, drops exactly the padding, and undoing
      it gives the input back. */
  lemma {:induction false} Base64UrlRoundTrip(s: string)
    requires WellFormedBase64(s)
    ensures var u := Base64UrlFromBase64(s);
      && |u| == |s| - PadCount(s)
      && (forall i :: 0 <= i < |u| ==> IsBase64UrlChar(u[i]))
      && Base64FromBase64Url(u) == s
  {
    StripExactlyPadding(s);
    UrlCharsCore(s);
    UrlUndo(s);
  }

  /** Re-padding the post-processed string gives the input back. */
  lemma UrlUndo(s: string)
    requires WellFormedBase64(s)
    ensures Base64FromBase64Url(Base64UrlFromBase64(s)) == s
  {
    var core, p := |s| - PadCount(s), PadCount(s);
    var u := Base64UrlFromBase64(s);
    assert FromUrlAlphabet(u) == s[..core] by {
      StripExactlyPadding(s);
      UnmapCore(s);
    }
    PaddingSuffix(s);
    Repad(u, s, p);
  }

  /** Re-padding restores `s` when the unmapped string and `p` padding
      characters make it up. */
  lemma Repad(u: string, s: string, p: nat)
    requires |s| % 4 == 0 && p <= 2
    requires s == FromUrlAlphabet(u) + EqualsRun(p)
    ensures Base64FromBase64Url(u) == s
  {
    var t := FromUrlAlphabet(u);
    PadArithmetic(|s|, p, |t|);
  }

  /** The unpadded part, mapped, uses only the URL-safe alphabet. */
  lemma UrlCharsCore(s: string)
    requires WellFormedBase64(s)
    ensures var u := ToUrlAlphabet(s)[..|s| - PadCount(s)];
      forall i :: 0 <= i < |u| ==> IsBase64UrlChar(u[i])
  {
    var u := ToUrlAlphabet(s)[..|s| - PadCount(s)];
    forall i | 0 <= i < |u| ensures IsBase64UrlChar(u[i]) {
      assert IsBase64Char(s[i]);
    }
  }

  /** The strip removes exactly the padding of a well-formed string. */
  lemma StripExactlyPadding(s: string)
    requires WellFormedBase64(s)
    ensures Base64UrlFromBase64(s) == ToUrlAlphabet(s)[..|s| - PadCount(s)]
  {
    var core := |s| - PadCount(s);
    var m := ToUrlAlphabet(s);
    PaddingIsEquals(s);
    if core > 0 {
      assert IsBase64Char(s[core - 1]);
    }
    StripAt(m, core);
  }

  /** The padding of a well-formed string is all `=`. */
  lemma PaddingIsEquals(s: string)
    requires WellFormedBase64(s)
    ensures forall i :: |s| - PadCount(s) <= i < |s| ==> s[i] == '='
  {
  }

  /** Stripping a string whose tail from `core` on is all `=`, with no `=` just
      before it, leaves its first `core` characters. */
  lemma StripAt(m: string, core: nat)
    requires core <= |m|
    requires core == 0 || m[core - 1] != '='
    requires forall i :: core <= i < |m| ==> m[i] == '='
    ensures StripTrailingEquals(m) == m[..core]
  {
    var front, pad := m[..core], m[core..];
    forall i | 0 <= i < |pad| ensures pad[i] == '=' {
      assert pad[i] == m[core + i];
    }
    StripEqualsExact(front, pad);
    assert front + pad == m;
  }

  /** Mapping the URL-safe characters back restores the unpadded part. */
  lemma UnmapCore(s: string)
    requires WellFormedBase64(s)
    ensures FromUrlAlphabet(ToUrlAlphabet(s)[..|s| - PadCount(s)]) == s[..|s| - PadCount(s)]
  {
    var core := |s| - PadCount(s);
    var t := FromUrlAlphabet(ToUrlAlphabet(s)[..core]);
    forall i | 0 <= i < core ensures t[i] == s[i] {
      assert IsBase64Char(s[i]);
    }
  }

  /** A well-formed string is its unpadded part followed by its padding. */
  lemma PaddingSuffix(s: string)
    requires WellFormedBase64(s)
    ensures s == s[..|s| - PadCount(s)] + EqualsRun(PadCount(s))
  {
  }

  lemma PadArithmetic(n: nat, p: nat, k: nat)
    requires n % 4 == 0 && p <= 2 && k + p == n
    ensures (4 - k % 4) % 4 == p
  {
  }

  /** The `raw` message sent to the API: base64url of the UTF-8 bytes of the MIME text. */
  function RawMessage(m: EmailData): string {
    Base64UrlFromBase64(Base64Encode(Utf8Encode(BuildMimeMessage(m))))
  }

  /** The raw message uses only the URL-safe alphabet, carries no padding, and
      re-padding it recovers the standard base64 encoding of the message. */
  lemma RawMessageUrlSafe(m: EmailData)
    ensures var u := RawMessage(m);
      && (forall i :: 0 <= i < |u| ==> IsBase64UrlChar(u[i]))
      && Base64FromBase64Url(u) == Base64Encode(Utf8Encode(BuildMimeMessage(m)))
  {
    Base64EncodeWellFormed(Utf8Encode(BuildMimeMessage(m)));
    Base64UrlRoundTrip(Base64Encode(Utf8Encode(BuildMimeMessage(m))));
  }
}
