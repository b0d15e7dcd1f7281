/** The dispatch skeleton (`sendOne` and the loop in `main`): every contact
    row, in file order, is normalised; a row without a usable phone is skipped
    before any navigation; any other row opens its deep link once, and whatever
    goes wrong in that attempt is caught and recorded for that row alone, so
    the loop always reaches the next row.

    The browser is not modelled. It is a function from the addresses the page
    has navigated to so far and the address it is sent to now, to the outcome of
    that attempt (delivered, or an error message); `encodeURIComponent` is the
    parameter `encode`. The loop and the session take the phone normaliser as
    the parameter `normalize`; `Run`, given the configured country code `cc`,
    passes `normalizePhone` with that code (`PhoneOf(cc)`). */
module Dispatch {
  import opened Text
  import opened Phone
  import opened CsvDocument

  datatype Option<T> = None | Some(value: T)

  /** What the page reports for one attempt: the attempt ran to the end, or
      something in it (navigation, the 60-second wait for the composer, the
      send) threw with this message. */
  datatype Attempt = Delivered | Threw(message: string)

  /** The page's answer to an attempt, given every address opened before it. */
  type Browser = (seq<string>, string) -> Attempt

  datatype Status = Sent | Failed(detail: string) | Skipped

  /** One row's result, with the normalised phone the row was sent to. */
  datatype Outcome = Outcome(phone: string, status: Status)

  /** One call of `sendOne`: its outcome and the addresses it navigated to. */
  datatype Step = Step(outcome: Outcome, visits: seq<string>)

  datatype RunResult =
    | SchemaError                   // the header lacks `phone` or `message`
    | NoRows                        // nothing to send: the browser is never launched
    | LaunchFailed(message: string)  // the browser could not be started
    | LandingFailed(message: string) // the landing page could not be opened
    | Completed(outcomes: seq<Outcome>)

  const LandingUrl: string := "https://web.whatsapp.com"
  const SendBase: string := "https://web.whatsapp.com/send?"

  /** The deep link that opens the composer for `phone`, prefilled with the
      already encoded `text`. */
  function DeepLink(phone: string, text: string): (r: string)
    ensures StartsWith(r, SendBase) && |r| > |SendBase|
  {
    SendBase + "phone=" + phone + "&" + "text=" + text + "&" + "type=phone_number" + "&" + "app_absent=0"
  }

  /** The characters `encodeURIComponent` can produce: the unreserved marks,
      ASCII letters and digits, and `%` with the hexadecimal digits of an escape. */
  predicate UriChar(c: char) {
    || 'a' <= c <= 'z' || 'A' <= c <= 'Z' || '0' <= c <= '9'
    || c == '-' || c == '_' || c == '.' || c == '!' || c == '~'
    || c == '*' || c == '\'' || c == '(' || c == ')' || c == '%'
  }

  predicate UriSafe(s: string) {
    forall i :: 0 <= i < |s| ==> UriChar(s[i])
  }

  /** The query of a deep link: the four `&`-separated parameters. */
  function QueryParams(phone: string, text: string): seq<string> {
    ["phone=" + phone, "text=" + text, "type=phone_number", "app_absent=0"]
  }

  lemma JoinParams(phone: string, text: string)
    ensures SendBase + Join(QueryParams(phone, text), '&') == DeepLink(phone, text)
  {
    JoinFour(SendBase, "phone=", phone, "text=", text, "type=phone_number", "app_absent=0");
  }

  /** Four query parameters, the first two each a name and a value, joined
      with `&` after a base. */
  lemma JoinFour(base: string, n1: string, v1: string, n2: string, v2: string, p3: string, p4: string)
    ensures base + Join([n1 + v1, n2 + v2, p3, p4], '&')
         == base + n1 + v1 + "&" + n2 + v2 + "&" + p3 + "&" + p4
  {
    var ps := [n1 + v1, n2 + v2, p3, p4];
    assert ps[1..] == [n2 + v2, p3, p4] && ps[1..][1..] == [p3, p4] && ps[1..][1..][1..] == [p4];
    assert Join(ps[1..][1..], '&') == p3 + "&" + p4;
    assert Join(ps[1..], '&') == (n2 + v2) + "&" + (p3 + "&" + p4);
    assert Join(ps, '&') == (n1 + v1) + "&" + ((n2 + v2) + "&" + (p3 + "&" + p4));
  }

  /** No parameter holds `&` when neither the phone nor the text does. */
  lemma ParamsWithoutAmpersand(phone: string, text: string)
    requires '&' !in phone && '&' !in text
    ensures forall k :: 0 <= k < 4 ==> '&' !in QueryParams(phone, text)[k]
  {
    assert '&' !in "type=phone_number" && '&' !in "app_absent=0";
    assert forall c :: c in "phone=" + phone ==> c in "phone=" || c in phone;
    assert forall c :: c in "text=" + text ==> c in "text=" || c in text;
  }

  /** A deep link is the send base followed by its parameters joined with
      `&`; when neither the phone nor the text holds `&`, splitting the query
      on `&` gives the parameters back. */
  lemma DeepLinkQuery(phone: string, text: string)
    requires '&' !in phone && '&' !in text
    ensures DeepLink(phone, text) == SendBase + Join(QueryParams(phone, text), '&')
    ensures SplitOn(DeepLink(phone, text)[|SendBase|..], '&') == QueryParams(phone, text)
  {
    JoinParams(phone, text);
    ParamsWithoutAmpersand(phone, text);
    var q := Join(QueryParams(phone, text), '&');
    assert DeepLink(phone, text) == SendBase + q;
    assert (SendBase + q)[|SendBase|..] == q;
    SplitJoin(QueryParams(phone, text), '&');
  }

  /** Different phones or texts give different deep links. */
  lemma DeepLinkInjective(p1: string, t1: string, p2: string, t2: string)
    requires '&' !in p1 && '&' !in t1 && '&' !in p2 && '&' !in t2
    requires DeepLink(p1, t1) == DeepLink(p2, t2)
    ensures p1 == p2 && t1 == t2
  {
    DeepLinkQuery(p1, t1);
    DeepLinkQuery(p2, t2);
    var q1, q2 := QueryParams(p1, t1), QueryParams(p2, t2);
    assert q1[0] == q2[0] && q1[1] == q2[1];
    assert p1 == q1[0][6..] && p2 == q2[0][6..];
    assert t1 == q1[1][5..] && t2 == q2[1][5..];
  }

  /** The normaliser `main` uses: `normalizePhone` with country code `cc`. */
  function PhoneOf(cc: string): string -> string {
    raw => NormalizePhone(raw, cc)
  }

  /** A row is skipped exactly when its phone text has no digit, or no
      country code is configured and all its digits are zeros. */
  lemma SkippedIff(row: Contact, cc: string)
    ensures !Dialable(row, PhoneOf(cc)) <==> !HasDigit(row.phone) || (cc == "" && OnlyZeroDigits(row.phone))
  {
    EmptyIff(row.phone, cc);
  }

  /** With an all-digit country code and an encoder that only produces URI
      characters, a row's link carries its phone and encoded message as the
      `phone` and `text` parameters, recoverable by splitting on `&`. */
  lemma LinkCarriesRow(row: Contact, cc: string, encode: string -> string)
    requires AllDigits(cc) && UriSafe(encode(row.message))
    ensures var phone, text := NormalizePhone(row.phone, cc), encode(row.message);
      SplitOn(LinkOf(row, PhoneOf(cc), encode)[|SendBase|..], '&') == QueryParams(phone, text)
  {
    var phone, text := NormalizePhone(row.phone, cc), encode(row.message);
    DigitsOnly(row.phone, cc);
    assert '&' !in phone && '&' !in text;
    DeepLinkQuery(phone, text);
  }

  /** The address a row is sent to. */
  function LinkOf(row: Contact, normalize: string -> string, encode: string -> string): string {
    DeepLink(normalize(row.phone), encode(row.message))
  }

  /** A row is sent (and not skipped) when its normalised phone is not empty. */
  predicate Dialable(row: Contact, normalize: string -> string) {
    normalize(row.phone) != ""
  }

  /** The addresses one row navigates to: none when it is skipped, else its link. */
  function Navigation(row: Contact, normalize: string -> string, encode: string -> string): (r: seq<string>)
    ensures |r| <= 1
    ensures r == [] <==> !Dialable(row, normalize)
  {
    if Dialable(row, normalize) then [LinkOf(row, normalize, encode)] else []
  }

  /** `sendOne(page, row.phone, row.message)` on a page that has already
      opened `history`. */
  function SendOne(history: seq<string>, row: Contact, normalize: string -> string, encode: string -> string,
                   browser: Browser): (r: Step)
    ensures r.outcome.phone == normalize(row.phone)
    ensures r.visits == Navigation(row, normalize, encode)
    ensures r.outcome.status == Skipped <==> !Dialable(row, normalize)
    ensures Dialable(row, normalize) ==>
      (r.outcome.status == Sent <==> browser(history, LinkOf(row, normalize, encode)) == Delivered)
    ensures Dialable(row, normalize) && browser(history, LinkOf(row, normalize, encode)).Threw? ==>
      r.outcome.status == Failed(browser(history, LinkOf(row, normalize, encode)).message)
  {
    var phone := normalize(row.phone);
    if phone == "" then Step(Outcome(phone, Skipped), [])
    else
      var url := DeepLink(phone, encode(row.message));
      match browser(history, url)
      case Delivered => Step(Outcome(phone, Sent), [url])
      case Threw(m) => Step(Outcome(phone, Failed(m)), [url])
  }

  /** The addresses the loop opens for `rows`, in order. */
  function Visits(rows: seq<Contact>, normalize: string -> string, encode: string -> string): seq<string> {
    if rows == [] then []
    else Visits(rows[..|rows| - 1], normalize, encode) + Navigation(rows[|rows| - 1], normalize, encode)
  }

  /** The outcome of row `k`: the page has opened `start` and then the links
      of the rows before `k`, whatever those attempts returned. */
  function OutcomeAt(rows: seq<Contact>, k: nat, start: seq<string>, normalize: string -> string,
                     encode: string -> string, browser: Browser): Outcome
    requires k < |rows|
  {
    SendOne(start + Visits(rows[..k], normalize, encode), rows[k], normalize, encode, browser).outcome
  }

  /** The loop `for (i = 0; i < rows.length; i++) await sendOne(...)` on a page
      that has opened `start`: one outcome per row, in order, and the page ends
      up having opened the links of the dialable rows, whatever the browser
      answered. */
  method DispatchAll(rows: seq<Contact>, start: seq<string>, normalize: string -> string,
                     encode: string -> string, browser: Browser)
    returns (outcomes: seq<Outcome>, visited: seq<string>)
    ensures |outcomes| == |rows|
    ensures forall k :: 0 <= k < |rows| ==> outcomes[k] == OutcomeAt(rows, k, start, normalize, encode, browser)
    ensures visited == start + Visits(rows, normalize, encode)
  {
    outcomes := [];
    visited := start;
    var i := 0;
    while i < |rows|
      invariant 0 <= i <= |rows|
      invariant |outcomes| == i
      invariant forall k :: 0 <= k < i ==> outcomes[k] == OutcomeAt(rows, k, start, normalize, encode, browser)
      invariant visited == start + Visits(rows[..i], normalize, encode)
    {
      var step := SendOne(visited, rows[i], normalize, encode, browser);
      NextStep(rows, i, start, normalize, encode, browser, outcomes, visited);
      outcomes := outcomes + [step.outcome];
      visited := visited + step.visits;
      i := i + 1;
    }
    assert rows[..|rows|] == rows;
  }

  /** One turn of the loop keeps its invariant: the new outcome is that of
      row `i`, and the page has then opened the links of rows `0..i`. */
  lemma NextStep(rows: seq<Contact>, i: nat, start: seq<string>, normalize: string -> string,
                 encode: string -> string, browser: Browser, outcomes: seq<Outcome>, visited: seq<string>)
    requires i < |rows| && |outcomes| == i
    requires forall k :: 0 <= k < i ==> outcomes[k] == OutcomeAt(rows, k, start, normalize, encode, browser)
    requires visited == start + Visits(rows[..i], normalize, encode)
    ensures var step := SendOne(visited, rows[i], normalize, encode, browser);
      && (forall k :: 0 <= k < i + 1 ==>
            (outcomes + [step.outcome])[k] == OutcomeAt(rows, k, start, normalize, encode, browser))
      && visited + step.visits == start + Visits(rows[..i + 1], normalize, encode)
  {
    var step := SendOne(visited, rows[i], normalize, encode, browser);
    assert step.outcome == OutcomeAt(rows, i, start, normalize, encode, browser);
    VisitsSnoc(rows, i, normalize, encode);
  }

  lemma VisitsSnoc(rows: seq<Contact>, i: nat, normalize: string -> string, encode: string -> string)
    requires i < |rows|
    ensures Visits(rows[..i + 1], normalize, encode) == Visits(rows[..i], normalize, encode) + Navigation(rows[i], normalize, encode)
  {
    assert rows[..i + 1][..i] == rows[..i];
  }

  /** The links of a concatenation are the links of its parts. */
  lemma {:induction false} VisitsAppend(a: seq<Contact>, b: seq<Contact>, normalize: string -> string, encode: string -> string)
    ensures Visits(a + b, normalize, encode) == Visits(a, normalize, encode) + Visits(b, normalize, encode)
    decreases |b|
  {
    if b == [] {
      assert a + b == a;
    } else {
      var b' := b[..|b| - 1];
      assert (a + b)[..|a + b| - 1] == a + b';
      VisitsAppend(a, b', normalize, encode);
    }
  }

  /** Rows are attempted in file order: a dialable row `j` opens its link
      right after the links of the rows before it. */
  lemma VisitOrder(rows: seq<Contact>, j: nat, normalize: string -> string, encode: string -> string)
    requires j < |rows| && Dialable(rows[j], normalize)
    ensures var n := |Visits(rows[..j], normalize, encode)|;
      n < |Visits(rows, normalize, encode)|
      && Visits(rows, normalize, encode)[..n] == Visits(rows[..j], normalize, encode)
      && Visits(rows, normalize, encode)[n] == LinkOf(rows[j], normalize, encode)
  {
    assert rows == rows[..j + 1] + rows[j + 1..];
    VisitsAppend(rows[..j + 1], rows[j + 1..], normalize, encode);
    assert rows[..j + 1][..j] == rows[..j];
  }

  /** A skipped row opens nothing. */
  lemma SkippedRowNoNavigation(rows: seq<Contact>, j: nat, normalize: string -> string, encode: string -> string)
    requires j < |rows| && !Dialable(rows[j], normalize)
    ensures Visits(rows[..j + 1], normalize, encode) == Visits(rows[..j], normalize, encode)
  {
    assert rows[..j + 1][..j] == rows[..j];
  }

  /** The loop opens at most one link per row. */
  lemma {:induction false} VisitsBound(rows: seq<Contact>, normalize: string -> string, encode: string -> string)
    ensures |Visits(rows, normalize, encode)| <= |rows|
  {
    if rows != [] {
      VisitsBound(rows[..|rows| - 1], normalize, encode);
    }
  }

  /** The loop opens no link at all exactly when no row has a usable phone. */
  lemma {:induction false} NoVisitsIff(rows: seq<Contact>, normalize: string -> string, encode: string -> string)
    ensures Visits(rows, normalize, encode) == [] <==> forall k :: 0 <= k < |rows| ==> !Dialable(rows[k], normalize)
  {
    if rows != [] {
      var n := |rows| - 1;
      var init := rows[..n];
      NoVisitsIff(init, normalize, encode);
      var before, last := Visits(init, normalize, encode), Navigation(rows[n], normalize, encode);
      assert Visits(rows, normalize, encode) == before + last;
      if before == [] && last == [] {
        forall k | 0 <= k < |rows| ensures !Dialable(rows[k], normalize) {
          if k < n {
            assert init[k] == rows[k];
          }
        }
      } else if before != [] {
        var k :| 0 <= k < n && Dialable(init[k], normalize);
        assert rows[k] == init[k];
        assert Dialable(rows[k], normalize);
      } else {
        assert Dialable(rows[n], normalize);
      }
    }
  }

  /** The page's history only grows: a dialable row `j` before row `k` has
      added its link by the time `k` is reached. */
  lemma HistoryGrows(rows: seq<Contact>, j: nat, k: nat, normalize: string -> string, encode: string -> string)
    requires j < k <= |rows| && Dialable(rows[j], normalize)
    ensures |Visits(rows[..j], normalize, encode)| < |Visits(rows[..k], normalize, encode)|
  {
    var pre := rows[..k];
    assert pre[..j] == rows[..j] && pre[j] == rows[j];
    VisitOrder(pre, j, normalize, encode);
  }

  /** One row's attempt cannot affect another's: if two browsers answer
      every navigation alike except the one made for row `k`, every other row
      has the same outcome under both. In particular a timeout or error on row
      `k` leaves the rows after it to be attempted as if it had not happened. */
  lemma OtherRowsUnaffected(rows: seq<Contact>, k: nat, start: seq<string>, normalize: string -> string,
                            encode: string -> string, b1: Browser, b2: Browser)
    requires k < |rows| && Dialable(rows[k], normalize)
    requires forall h, u :: h != start + Visits(rows[..k], normalize, encode) ==> b1(h, u) == b2(h, u)
    ensures forall j :: 0 <= j < |rows| && j != k ==>
      OutcomeAt(rows, j, start, normalize, encode, b1) == OutcomeAt(rows, j, start, normalize, encode, b2)
  {
    forall j | 0 <= j < |rows| && j != k
      ensures OutcomeAt(rows, j, start, normalize, encode, b1) == OutcomeAt(rows, j, start, normalize, encode, b2)
    {
      var h := start + Visits(rows[..j], normalize, encode);
      if Dialable(rows[j], normalize) {
        if j < k {
          HistoryGrows(rows, j, k, normalize, encode);
        } else {
          HistoryGrows(rows, k, j, normalize, encode);
        }
        assert h != start + Visits(rows[..k], normalize, encode);
        assert b1(h, LinkOf(rows[j], normalize, encode)) == b2(h, LinkOf(rows[j], normalize, encode));
      }
    }
  }

  /** `main` after the browser is launched: open the landing page (a failure
      there is fatal), wait for the session, then run the loop. The wait for
      `#app` has no timeout and is taken to end. */
  method Session(rows: seq<Contact>, normalize: string -> string, encode: string -> string, browser: Browser)
    returns (result: RunResult, visited: seq<string>)
    ensures browser([], LandingUrl).Threw? ==>
      result == LandingFailed(browser([], LandingUrl).message) && visited == [LandingUrl]
    ensures browser([], LandingUrl) == Delivered ==>
      && result.Completed?
      && |result.outcomes| == |rows|
      && (forall k :: 0 <= k < |rows| ==>
            result.outcomes[k] == OutcomeAt(rows, k, [LandingUrl], normalize, encode, browser))
      && visited == [LandingUrl] + Visits(rows, normalize, encode)
  {
    match browser([], LandingUrl) {
      case Threw(m) =>
        result := LandingFailed(m);
        visited := [LandingUrl];
      case Delivered =>
        var outcomes;
        outcomes, visited := DispatchAll(rows, [LandingUrl], normalize, encode, browser);
        result := Completed(outcomes);
    }
  }

  /** `main`: read the contacts (a schema error is fatal before anything
      else), stop cleanly when there is no row, otherwise launch the browser
      (`launch` is its error, if any) and run the session. */
  method Run(content: string, cc: string, encode: string -> string, launch: Option<string>,
             browser: Browser)
    returns (result: RunResult, visited: seq<string>)
    ensures result == SchemaError <==> Parse(content).Err?
    ensures result == NoRows <==> Parse(content) == Ok([])
    ensures launch.Some? && Parse(content).Ok? && Parse(content).value != [] ==>
      result == LaunchFailed(launch.value)
    ensures !(result.Completed? || result.LandingFailed?) ==> visited == []
    ensures (Parse(content).Ok? && Parse(content).value != [] && launch == None
      && browser([], LandingUrl).Threw?) ==>
      result == LandingFailed(browser([], LandingUrl).message) && visited == [LandingUrl]
    ensures result.Completed? <==>
      Parse(content).Ok? && Parse(content).value != [] && launch == None
      && browser([], LandingUrl) == Delivered
    ensures result.Completed? ==>
      var rows := Parse(content).value;
      && |result.outcomes| == |rows|
      && (forall k :: 0 <= k < |rows| ==>
            result.outcomes[k] == OutcomeAt(rows, k, [LandingUrl], PhoneOf(cc), encode, browser))
      && visited == [LandingUrl] + Visits(rows, PhoneOf(cc), encode)
  {
    visited := [];
    var parsed := ParseCSV(content);
    if parsed.Err? {
      result := SchemaError;
    } else if parsed.value == [] {
      result := NoRows;
    } else if launch.Some? {
      result := LaunchFailed(launch.value);
    } else {
      result, visited := Session(parsed.value, PhoneOf(cc), encode, browser);
    }
  }
}
