/**
 * The HTTP replies both scraper controllers send (controllers/scraperController.js
 * and web-scraper/controllers/scraperController.js), and the way each maps
 * the message of a failed scrape to a status: the production controller
 * matches the message as it is, the in-memory one matches it lower-cased.
 * Both test "timeout", then "404", then "403", and fall back to 500.
 */
module Replies {
  import opened Wrappers
  import opened Text
  import opened Document
  import opened Scraping

  datatype Reply =
    | PageReply(data: PageData, fromCache: bool, cachedAt: Option<string>)
    | ErrorReply(status: nat, error: string, details: string)

  const MissingUrlReply := ErrorReply(400, "URL manquante", "Veuillez fournir une URL à scraper")

  function InvalidUrlReply(reason: string): Reply {
    ErrorReply(400, "URL invalide", reason)
  }

  /** The reply the `catch` block sends for a status it chose. */
  function FailureReply(status: nat): (r: Reply)
    ensures r.ErrorReply?
    ensures r.status == if status in {408, 404, 403} then status else 500
  {
    if status == 408 then ErrorReply(408, "Timeout", "La page met trop de temps à répondre")
    else if status == 404 then ErrorReply(404, "Page non trouvée", "La page demandée n'existe pas")
    else if status == 403 then ErrorReply(403, "Accès refusé", "Le site bloque l'accès au scraping")
    else ErrorReply(500, "Erreur lors du scraping", "Impossible de scraper cette URL. Vérifiez qu'elle est accessible.")
  }

  /** The status chain on a message: "timeout" → 408, "404" → 404,
      "403" → 403, anything else → 500. */
  function Classify(msg: string): nat {
    if Contains(msg, "timeout") then 408
    else if Contains(msg, "404") then 404
    else if Contains(msg, "403") then 403
    else 500
  }

  /** The production controller matches the message case-sensitively. */
  function WebStatusOf(msg: string): nat {
    Classify(msg)
  }

  /** The in-memory controller matches the lower-cased message (a missing
      message counts as ''). */
  function MemoryStatusOf(msg: string): nat {
    Classify(ToLower(msg))
  }

  // ---------------------------------------------------------------------
  // How the two mappings relate
  // ---------------------------------------------------------------------

  /** Lower-casing leaves digits where they are, so a digit string occurs in
      the lower-cased message exactly where it occurs in the message. */
  lemma DigitsSurviveLower(m: string, sub: string)
    requires AllDigits(sub)
    ensures Contains(ToLower(m), sub) <==> Contains(m, sub)
  {
    var lm := ToLower(m);
    if Contains(m, sub) {
      ContainsToLower(m, sub);
      assert ToLower(sub) == sub by { LowerKeepsDigits(sub); }
    }
    if Contains(lm, sub) {
      var i: nat :| i <= |lm| && OccursAt(lm, sub, i);
      assert m[i..i + |sub|] == sub by {
        forall k | 0 <= k < |sub| ensures m[i..i + |sub|][k] == sub[k] {
          assert lm[i..i + |sub|][k] == sub[k];
        }
      }
      assert OccursAt(m, sub, i);
    }
  }

  lemma LowerKeepsDigits(s: string)
    requires AllDigits(s)
    ensures ToLower(s) == s
  {
  }

  /** Every message the production controller reports as a timeout, the
      in-memory controller reports as a timeout too. */
  lemma WebTimeoutIsMemoryTimeout(msg: string)
    requires WebStatusOf(msg) == 408
    ensures MemoryStatusOf(msg) == 408
  {
    ContainsToLower(msg, "timeout");
    LowerTimeout();
  }

  lemma LowerTimeout()
    ensures ToLower("timeout") == "timeout"
  {
  }

  /** When the message mentions no "timeout" in any case, both controllers
      pick the same status: only the digit tests remain, and lower-casing
      does not move digits. */
  lemma SameStatusWithoutTimeout(msg: string)
    requires !Contains(ToLower(msg), "timeout")
    ensures WebStatusOf(msg) == MemoryStatusOf(msg)
  {
    if Contains(msg, "timeout") {
      WebTimeoutIsMemoryTimeout(msg);
    }
    DigitsSurviveLower(msg, "404");
    DigitsSurviveLower(msg, "403");
  }

  /** The controllers disagree on an upper-case "TIMEOUT". */
  lemma UpperCaseTimeoutDiffers(m: string)
    requires m == "TIMEOUT"
    ensures WebStatusOf(m) == 500 && MemoryStatusOf(m) == 408
  {
    UpperTimeoutFacts(m);
    NotContainsMissingChar(m, "timeout", 't');
    NotContainsMissingChar(m, "404", '4');
    NotContainsMissingChar(m, "403", '4');
    ContainsAtStart(ToLower(m), "timeout");
  }

  lemma UpperTimeoutFacts(m: string)
    requires m == "TIMEOUT"
    ensures ToLower(m) == "timeout" && 't' !in m && '4' !in m
  {
  }

  // ---------------------------------------------------------------------
  // The status each failure of `scrape` ends in
  // ---------------------------------------------------------------------

  function Upper(c: char): char
    requires 'a' <= c <= 'z'
  {
    (c as int - 32) as char
  }

  /** A message lacking one letter of "timeout", in either case, mentions
      "timeout" neither as it is nor lower-cased. */
  lemma NoTimeout(m: string, c: char)
    requires c in "timeout" && c !in m && Upper(c) !in m
    ensures !Contains(m, "timeout") && !Contains(ToLower(m), "timeout")
  {
    NotContainsMissingChar(m, "timeout", c);
    LowerLacks(m, c);
    NotContainsMissingChar(ToLower(m), "timeout", c);
  }

  /** A lower-case letter absent from `m` in both cases is absent from its
      lower-cased form. */
  lemma LowerLacks(m: string, c: char)
    requires 'a' <= c <= 'z' && c !in m && Upper(c) !in m
    ensures c !in ToLower(m)
  {
    var l := ToLower(m);
    forall k | 0 <= k < |l| ensures l[k] != c {
      assert m[k] != c && m[k] != Upper(c) by {
        assert m[k] in m;
      }
    }
  }

  /** The lower-cased message mentions no "timeout" when its head has no 't'
      in either case and its tail lacks one letter of "timeout". */
  lemma NoTimeoutAfter(p: string, q: string, c: char)
    requires 't' !in p && 'T' !in p
    requires c in "timeout" && c !in q && Upper(c) !in q
    ensures !Contains(ToLower(p + q), "timeout")
  {
    ToLowerAppend(p, q);
    LowerLacks(p, 't');
    if Contains(ToLower(p) + ToLower(q), "timeout") {
      ContainsPastPrefix(ToLower(p), ToLower(q), "timeout");
      NoTimeout(q, c);
    }
  }

  /** When the first character of `sub` is absent after the head of `s`,
      and `sub` does not open `s`, then `sub` is not in `s`. */
  lemma NotContainsAfterHead(a: char, q: string, sub: string)
    requires sub != [] && sub[0] !in q
    requires !OccursAt([a] + q, sub, 0)
    ensures !Contains([a] + q, sub)
  {
    var s := [a] + q;
    forall i: nat | i <= |s| ensures !OccursAt(s, sub, i) {
      if 0 < i && i + |sub| <= |s| {
        assert s[i..i + |sub|][0] == q[i - 1];
      }
    }
  }

  lemma DecimalOf404And403()
    ensures Decimal(404) == "404" && Decimal(403) == "403"
  {
    assert Decimal(40) == [DigitChar(4), DigitChar(0)];
  }

  /** After a prefix without the digit 4, a three-digit status other than
      404 and 403 makes neither "404" nor "403" appear. */
  lemma NoStatusDigits(p: string, status: nat)
    requires 100 <= status < 1000 && status != 404 && status != 403
    requires '4' !in p
    ensures !Contains(p + Decimal(status), "404") && !Contains(p + Decimal(status), "403")
  {
    var d := Decimal(status);
    DecimalOf404And403();
    if Contains(p + d, "404") {
      ContainsPastPrefix(p, d, "404");
      ContainsSameLength(d, "404");
      DecimalInjective(status, 404);
    }
    if Contains(p + d, "403") {
      ContainsPastPrefix(p, d, "403");
      ContainsSameLength(d, "403");
      DecimalInjective(status, 403);
    }
  }

  /** A message opening with the three characters of `sub` contains it. */
  lemma ContainsStatusAtStart(m: string, sub: string)
    requires |sub| == 3 && |m| >= 3
    requires m[0] == sub[0] && m[1] == sub[1] && m[2] == sub[2]
    ensures Contains(m, sub)
  {
    assert m[..3] == sub;
    ContainsAtStart(m, sub);
  }

  /** Without "timeout" in the lower-cased message, the digit tests alone
      decide, and they decide alike in both controllers. */
  lemma StatusesWithoutTimeout(m: string, status: nat)
    requires !Contains(ToLower(m), "timeout")
    requires || (status == 404 && Contains(m, "404"))
             || (status == 403 && !Contains(m, "404") && Contains(m, "403"))
             || (status == 500 && !Contains(m, "404") && !Contains(m, "403"))
    ensures WebStatusOf(m) == status && MemoryStatusOf(m) == status
  {
    if Contains(m, "timeout") {
      WebTimeoutIsMemoryTimeout(m);
    }
    SameStatusWithoutTimeout(m);
  }

  /** A digit string adds no letter to a message. */
  lemma LacksAfterDigits(p: string, d: string, c: char)
    requires c !in p && AllDigits(d) && !IsDigit(c)
    ensures c !in p + d
  {
  }

  /** A message opening with "404" and without the letter 'i' ends in 404. */
  lemma Status404(m: string)
    requires 'i' !in m && 'I' !in m
    requires |m| >= 3 && m[0] == '4' && m[1] == '0' && m[2] == '4'
    ensures WebStatusOf(m) == 404 && MemoryStatusOf(m) == 404
  {
    NoTimeout(m, 'i');
    ContainsStatusAtStart(m, "404");
    StatusesWithoutTimeout(m, 404);
  }

  /** A message opening with "403", with no other '4' and without the
      letter 'i', ends in 403. */
  lemma Status403(m: string, q: string)
    requires 'i' !in m && 'I' !in m
    requires m == ['4'] + q && '4' !in q && |q| >= 2 && q[0] == '0' && q[1] == '3'
    ensures WebStatusOf(m) == 403 && MemoryStatusOf(m) == 403
  {
    NoTimeout(m, 'i');
    assert m[..3][2] == '3';
    NotContainsAfterHead('4', q, "404");
    ContainsStatusAtStart(m, "403");
    StatusesWithoutTimeout(m, 403);
  }

  /** A message lacking a letter of "timeout" in both cases and the digit 0
      ends in 500. */
  lemma Status500(m: string, c: char)
    requires c in "timeout" && c !in m && Upper(c) !in m && '0' !in m
    ensures WebStatusOf(m) == 500 && MemoryStatusOf(m) == 500
  {
    NoTimeout(m, c);
    NotContainsMissingChar(m, "404", '0');
    NotContainsMissingChar(m, "403", '0');
    StatusesWithoutTimeout(m, 500);
  }

  /** A status line "<p><status>" whose prefix lacks a letter of "timeout"
      in both cases and the digit 4 ends in 500, for any three-digit status
      other than 404 and 403. */
  lemma StatusLine500(p: string, status: nat, c: char)
    requires c in "timeout" && c !in p && Upper(c) !in p && '4' !in p
    requires 100 <= status < 1000 && status != 404 && status != 403
    ensures WebStatusOf(p + Decimal(status)) == 500 && MemoryStatusOf(p + Decimal(status)) == 500
  {
    var m := p + Decimal(status);
    LacksAfterDigits(p, Decimal(status), c);
    LacksAfterDigits(p, Decimal(status), Upper(c));
    NoTimeout(m, c);
    NoStatusDigits(p, status);
    StatusesWithoutTimeout(m, 500);
  }

  /** A 404 response ends in a 404 reply from both controllers. */
  lemma NotFoundEndsIn404(body: Doc)
    ensures FailureMessage(Response(404, body)) == Some(NotFoundMessage)
    ensures var m := FailureMessage(Response(404, body)).value;
            WebStatusOf(m) == 404 && MemoryStatusOf(m) == 404
  {
    var m := FailureMessage(Response(404, body)).value;
    NotFoundFacts(m);
    Status404(m);
  }

  lemma NotFoundFacts(m: string)
    requires m == NotFoundMessage
    ensures 'i' !in m && 'I' !in m && |m| >= 3 && m[0] == '4' && m[1] == '0' && m[2] == '4'
  {
  }

  /** A 403 response ends in a 403 reply from both controllers. */
  lemma ForbiddenEndsIn403(body: Doc)
    ensures FailureMessage(Response(403, body)) == Some(ForbiddenMessage)
    ensures var m := FailureMessage(Response(403, body)).value;
            WebStatusOf(m) == 403 && MemoryStatusOf(m) == 403
  {
    var m := FailureMessage(Response(403, body)).value;
    ForbiddenLacksI(m);
    var q := ForbiddenTail(m);
    Status403(m, q);
  }

  lemma ForbiddenLacksI(m: string)
    requires m == ForbiddenMessage
    ensures 'i' !in m && 'I' !in m
  {
  }

  lemma ForbiddenTail(m: string) returns (q: string)
    requires m == ForbiddenMessage
    ensures m == ['4'] + q && '4' !in q && |q| >= 2 && q[0] == '0' && q[1] == '3'
  {
    q := "03: Accès refusé";
  }

  /** A timed-out request ends in a 408 reply from both controllers. */
  lemma TimeoutEndsIn408(message: string)
    ensures FailureMessage(NetworkError(Some("ECONNABORTED"), message)) == Some(TimeoutMessage)
    ensures var m := FailureMessage(NetworkError(Some("ECONNABORTED"), message)).value;
            WebStatusOf(m) == 408 && MemoryStatusOf(m) == 408
  {
    var m := FailureMessage(NetworkError(Some("ECONNABORTED"), message)).value;
    ContainsAtStart(m, "timeout");
    WebTimeoutIsMemoryTimeout(m);
  }

  /** Any other client error status ends in a 500 reply from both
      controllers: "Erreur HTTP 4xx" mentions none of the keys. */
  lemma OtherClientErrorEndsIn500(status: nat, body: Doc)
    requires 400 <= status < 500 && status != 404 && status != 403
    ensures FailureMessage(Response(status, body)) == Some(HttpErrorMessage(status))
    ensures WebStatusOf(HttpErrorMessage(status)) == 500 && MemoryStatusOf(HttpErrorMessage(status)) == 500
  {
    var p := "Erreur HTTP ";
    ErreurPrefixLacks(p);
    StatusLine500(p, status, 'i');
  }

  /** A server error status ends in a 500 reply from both controllers:
      axios's "Request failed with status code 5xx" mentions none of the
      keys. */
  lemma ServerErrorEndsIn500(status: nat, body: Doc)
    requires 500 <= status < 1000
    ensures FailureMessage(Response(status, body)) == Some(BadResponseMessage(status))
    ensures WebStatusOf(BadResponseMessage(status)) == 500 && MemoryStatusOf(BadResponseMessage(status)) == 500
  {
    var p := "Request failed with status code ";
    RequestPrefixLacks(p);
    RequestPrefixLacksFour(p);
    StatusLine500(p, status, 'm');
  }

  lemma ErreurPrefixLacks(p: string)
    requires p == "Erreur HTTP "
    ensures 'i' !in p && 'I' !in p && '4' !in p
  {
  }

  lemma RequestPrefixLacks(p: string)
    requires p == "Request failed with status code "
    ensures 'm' !in p && 'M' !in p
  {
  }

  lemma RequestPrefixLacksFour(p: string)
    requires p == "Request failed with status code "
    ensures '4' !in p
  {
  }

  /** A refused connection ends in a 500 reply from both controllers. */
  lemma RefusedEndsIn500(message: string)
    ensures FailureMessage(NetworkError(Some("ECONNREFUSED"), message)) == Some(RefusedMessage)
    ensures var m := FailureMessage(NetworkError(Some("ECONNREFUSED"), message)).value;
            WebStatusOf(m) == 500 && MemoryStatusOf(m) == 500
  {
    var m := FailureMessage(NetworkError(Some("ECONNREFUSED"), message)).value;
    RefusedLacksM(m);
    RefusedLacksZero(m);
    Status500(m, 'm');
  }

  lemma RefusedLacksM(m: string)
    requires m == RefusedMessage
    ensures 'm' !in m && 'M' !in m
  {
  }

  lemma RefusedLacksZero(m: string)
    requires m == RefusedMessage
    ensures '0' !in m
  {
  }

  /** An unknown domain ends in a 500 reply from both controllers:
      "DNS: Domaine introuvable" has a single 't', not followed by "imeout". */
  lemma DnsFailureEndsIn500(message: string)
    ensures FailureMessage(NetworkError(Some("ENOTFOUND"), message)) == Some(DnsMessage)
    ensures var m := FailureMessage(NetworkError(Some("ENOTFOUND"), message)).value;
            WebStatusOf(m) == 500 && MemoryStatusOf(m) == 500
  {
    var m := FailureMessage(NetworkError(Some("ENOTFOUND"), message)).value;
    var p, q := DnsSplit(m);
    DnsLacks(p, q);
    DnsLacksZero(m);
    SplitStatus500(m, p, q, 'i');
  }

  /** A message whose head has no 't' in either case, whose tail lacks a
      letter of "timeout" in both cases, and which has no 0 ends in 500. */
  lemma SplitStatus500(m: string, p: string, q: string, c: char)
    requires m == p + q && 't' !in p && 'T' !in p
    requires c in "timeout" && c !in q && Upper(c) !in q && '0' !in m
    ensures WebStatusOf(m) == 500 && MemoryStatusOf(m) == 500
  {
    NoTimeoutAfter(p, q, c);
    NotContainsMissingChar(m, "404", '0');
    NotContainsMissingChar(m, "403", '0');
    StatusesWithoutTimeout(m, 500);
  }

  lemma DnsSplit(m: string) returns (p: string, q: string)
    requires m == DnsMessage
    ensures m == p + q && p == "DNS: Domaine in" && q == "trouvable"
  {
    p, q := "DNS: Domaine in", "trouvable";
  }

  lemma DnsLacks(p: string, q: string)
    requires p == "DNS: Domaine in" && q == "trouvable"
    ensures 't' !in p && 'T' !in p && 'i' !in q && 'I' !in q
  {
  }

  lemma DnsLacksZero(m: string)
    requires m == DnsMessage
    ensures '0' !in m
  {
  }
}
