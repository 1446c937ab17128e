/**
 * The click API's route handlers: how the `limit` query parameter of
 * `GET /history` is read and checked, and how each handler turns what
 * the click service returned (or threw) into a status code and a JSON
 * body.  Each route runs behind the authentication middleware.
 *
 * The history `limit` goes through JavaScript's `parseInt` (section
 * 19.2.5 of ECMA-262), modelled here on Dafny strings, whose `char`s are
 * Unicode scalar values: a character outside the Basic Multilingual
 * Plane is one `char` here rather than two UTF-16 code units, which
 * changes nothing because no such character is white space or a digit.
 * The result is kept as an exact integer.
 */
module ClickRoutes {
  import opened Common
  import opened ClickLedger
  import Auth

  // ---------------------------------------------------------------------
  // parseInt(string) with no radix
  // ---------------------------------------------------------------------

  /** What `parseInt` returns: NaN, or an integer (a negative zero is kept as 0). */
  datatype ParsedInt = NaN | Num(value: int)

  /** The WhiteSpace and LineTerminator code points that `parseInt` skips at the start. */
  predicate IsJsSpace(c: char)
  {
    || c == '\t' || c == '\n' || c == '\U{000B}' || c == '\U{000C}' || c == '\r'
    || c == ' ' || c == '\U{00A0}' || c == '\U{1680}' || ('\U{2000}' <= c <= '\U{200A}')
    || c == '\U{2028}' || c == '\U{2029}' || c == '\U{202F}' || c == '\U{205F}'
    || c == '\U{3000}' || c == '\U{FEFF}'
  }

  /** The string with its leading white space removed. */
  function TrimStart(s: string): (t: string)
    ensures |t| <= |s| && t == s[|s| - |t|..]
    ensures forall i :: 0 <= i < |s| - |t| ==> IsJsSpace(s[i])
    ensures t == [] || !IsJsSpace(t[0])
  {
    if s != [] && IsJsSpace(s[0]) then
      var t := TrimStart(s[1..]);
      assert forall i :: 1 <= i < |s| - |t| ==> s[i] == s[1..][i - 1];
      t
    else
      s
  }

  predicate IsDecimalDigit(c: char)
  {
    '0' <= c <= '9'
  }

  /** A digit of radix 10, or of radix 16 (either case of letter). */
  predicate IsRadixDigit(c: char, radix: nat)
  {
    IsDecimalDigit(c) || (radix == 16 && (('a' <= c <= 'f') || ('A' <= c <= 'F')))
  }

  function DigitOf(c: char): (d: nat)
    ensures IsDecimalDigit(c) ==> d < 10
    ensures d < 16
  {
    if IsDecimalDigit(c) then c as int - '0' as int
    else if 'a' <= c <= 'f' then c as int - 'a' as int + 10
    else if 'A' <= c <= 'F' then c as int - 'A' as int + 10
    else 0
  }

  /** The longest prefix made of digits of the radix. */
  function LeadingDigits(s: string, radix: nat): (d: string)
    ensures |d| <= |s| && d == s[..|d|]
    ensures forall i :: 0 <= i < |d| ==> IsRadixDigit(d[i], radix)
    ensures |d| == |s| || !IsRadixDigit(s[|d|], radix)
  {
    if s != [] && IsRadixDigit(s[0], radix) then
      var rest := LeadingDigits(s[1..], radix);
      assert forall i :: 1 <= i < 1 + |rest| ==> ([s[0]] + rest)[i] == rest[i - 1];
      [s[0]] + rest
    else
      []
  }

  /** The number a string of digits denotes in the radix, most significant digit first. */
  function DigitsValue(d: string, radix: nat): nat
  {
    if d == [] then 0 else DigitsValue(d[..|d| - 1], radix) * radix + DigitOf(d[|d| - 1])
  }

  /**
   * `parseInt(s)`: skip leading white space, then read what follows;
   * the rest of the string after the digits is ignored.
   */
  function ParseInt(s: string): (p: ParsedInt)
    ensures (forall i :: 0 <= i < |s| ==> IsJsSpace(s[i])) ==> p.NaN?
    ensures p.Num? && p.value < 0 ==> TrimStart(s) != [] && TrimStart(s)[0] == '-'
  {
    ParseTrimmed(TrimStart(s))
  }

  /** One optional sign, then an unsigned number; a minus negates it. */
  function ParseTrimmed(t: string): (p: ParsedInt)
    ensures t == [] ==> p.NaN?
    ensures t != [] && t[0] != '-' && t[0] != '+' && !IsDecimalDigit(t[0]) ==> p.NaN?
    ensures p.Num? && t != [] && t[0] == '-' ==> p.value <= 0
    ensures p.Num? && (t == [] || t[0] != '-') ==> p.value >= 0
  {
    var u := if t != [] && (t[0] == '-' || t[0] == '+') then t[1..] else t;
    var m := ParseUnsigned(u);
    if m.Num? && t != [] && t[0] == '-' then Num(-m.value) else m
  }

  /**
   * A `0x`/`0X` prefix selects radix 16, otherwise radix 10; then the
   * longest run of digits, and NaN when there is none.
   */
  function ParseUnsigned(u: string): (p: ParsedInt)
    ensures p.Num? ==> p.value >= 0
    ensures u == [] || !IsDecimalDigit(u[0]) ==> p.NaN?
    ensures u != [] && IsDecimalDigit(u[0]) && !(|u| >= 2 && u[0] == '0' && (u[1] == 'x' || u[1] == 'X')) ==> p.Num?
  {
    var hex := |u| >= 2 && u[0] == '0' && (u[1] == 'x' || u[1] == 'X');
    var radix := if hex then 16 else 10;
    var z := LeadingDigits(if hex then u[2..] else u, radix);
    if z == [] then NaN else Num(DigitsValue(z, radix))
  }

  /** The decimal numeral of `n`, without leading zeros. */
  function DecimalString(n: nat): (s: string)
    ensures |s| >= 1
    ensures forall i :: 0 <= i < |s| ==> IsDecimalDigit(s[i])
    ensures s[0] == '0' ==> n == 0
    ensures DigitsValue(s, 10) == n
  {
    var last := ('0' as int + n % 10) as char;
    if n < 10 then
      [last]
    else
      var init := DecimalString(n / 10);
      assert (init + [last])[..|init|] == init;
      init + [last]
  }

  /** The digit run of a numeral followed by something that is not a digit is the numeral. */
  lemma {:induction false} LeadingDigitsOfNumeral(d: string, t: string, radix: nat)
    requires forall i :: 0 <= i < |d| ==> IsRadixDigit(d[i], radix)
    requires t == [] || !IsRadixDigit(t[0], radix)
    ensures LeadingDigits(d + t, radix) == d
  {
    if d != [] {
      assert (d + t)[1..] == d[1..] + t;
      LeadingDigitsOfNumeral(d[1..], t, radix);
      assert d == [d[0]] + d[1..];
    }
  }

  /** A decimal numeral followed by text that does not continue it reads back as its value. */
  lemma UnsignedDecimal(n: nat, t: string)
    requires t == [] || (!IsDecimalDigit(t[0]) && !(n == 0 && (t[0] == 'x' || t[0] == 'X')))
    ensures ParseUnsigned(DecimalString(n) + t) == Num(n)
  {
    var d := DecimalString(n);
    LeadingDigitsOfNumeral(d, t, 10);
    if |d| >= 2 {
      assert (d + t)[1] == d[1];
    } else if t != [] {
      assert (d + t)[1] == t[0];
    }
  }

  /** A digit is not white space. */
  lemma DigitIsNotSpace(c: char)
    requires IsDecimalDigit(c)
    ensures !IsJsSpace(c)
  {
  }

  /** Text that starts with something other than white space is read as it is. */
  lemma NoSpaceToTrim(s: string)
    requires s != [] && !IsJsSpace(s[0])
    ensures TrimStart(s) == s
    ensures ParseInt(s) == ParseTrimmed(s)
  {
  }

  /** Text that starts with a digit has no sign to strip. */
  lemma UnsignedAsIs(u: string)
    requires u != [] && IsDecimalDigit(u[0])
    ensures ParseTrimmed(u) == ParseUnsigned(u)
  {
  }

  /** A minus in front negates whatever number follows it. */
  lemma MinusNegates(u: string)
    requires ParseUnsigned(u).Num?
    ensures ParseTrimmed("-" + u) == Num(-ParseUnsigned(u).value)
  {
    assert ("-" + u)[0] == '-' && ("-" + u)[1..] == u;
  }

  /** Text that starts with a digit reads as the number it starts with. */
  lemma DigitFirst(d: string, t: string, n: nat)
    requires d != [] && IsDecimalDigit(d[0])
    requires ParseUnsigned(d + t) == Num(n)
    ensures ParseInt(d + t) == Num(n)
  {
    assert (d + t)[0] == d[0];
    DigitIsNotSpace(d[0]);
    NoSpaceToTrim(d + t);
    UnsignedAsIs(d + t);
  }

  /** A decimal numeral, followed by text that does not continue it, reads back as its value. */
  lemma ParsePositive(n: nat, t: string)
    requires t == [] || (!IsDecimalDigit(t[0]) && !(n == 0 && (t[0] == 'x' || t[0] == 'X')))
    ensures ParseInt(DecimalString(n) + t) == Num(n)
  {
    UnsignedDecimal(n, t);
    DigitFirst(DecimalString(n), t, n);
  }

  /** Any text that reads as a number without a sign reads as its negation behind a minus. */
  lemma MinusBeforeNumber(d: string, t: string, n: nat)
    requires ParseUnsigned(d + t) == Num(n)
    ensures ParseInt("-" + d + t) == Num(-(n as int))
  {
    var m := "-" + d + t;
    assert m[0] == '-' && m[1..] == d + t;
    MinusNegates(d + t);
    NoSpaceToTrim(m);
  }

  /** The same numeral behind a minus reads back as its negation. */
  lemma ParseNegative(n: nat, t: string)
    requires t == [] || (!IsDecimalDigit(t[0]) && !(n == 0 && (t[0] == 'x' || t[0] == 'X')))
    ensures ParseInt("-" + DecimalString(n) + t) == Num(-(n as int))
  {
    UnsignedDecimal(n, t);
    MinusBeforeNumber(DecimalString(n), t, n);
  }

  /**
   * `parseInt` reads back a decimal numeral, with or without a leading
   * minus, whatever follows it, provided what follows does not continue
   * the numeral (a digit) or turn a lone `0` into a hex prefix.
   */
  lemma ParseDecimal(n: nat, t: string)
    requires t == [] || (!IsDecimalDigit(t[0]) && !(n == 0 && (t[0] == 'x' || t[0] == 'X')))
    ensures ParseInt(DecimalString(n) + t) == Num(n)
    ensures ParseInt("-" + DecimalString(n) + t) == Num(-(n as int))
  {
    ParsePositive(n, t);
    ParseNegative(n, t);
  }

  /** A bare numeral, and a bare numeral behind a minus. */
  lemma ParseNumeral(n: nat)
    ensures ParseInt(DecimalString(n)) == Num(n)
    ensures ParseInt("-" + DecimalString(n)) == Num(-(n as int))
  {
    ParseDecimal(n, "");
    assert DecimalString(n) + "" == DecimalString(n);
    assert "-" + DecimalString(n) + "" == "-" + DecimalString(n);
  }

  /** Leading white space does not change what `parseInt` reads. */
  lemma ParseSkipsSpace(c: char, s: string)
    requires IsJsSpace(c)
    ensures ParseInt([c] + s) == ParseInt(s)
  {
    assert ([c] + s)[1..] == s;
  }

  /** Text that starts with anything other than white space, a sign or a digit is NaN. */
  lemma ParseNonNumeric(s: string)
    requires s != [] && !IsJsSpace(s[0]) && !IsDecimalDigit(s[0]) && s[0] != '-' && s[0] != '+'
    ensures ParseInt(s) == NaN
  {
  }

  // The numerals the examples below use, one per lemma so that each
  // example unfolds only its own.

  lemma Numeral0()
    ensures DecimalString(0) == "0"
  {
  }

  lemma Numeral5()
    ensures "-" + DecimalString(5) == "-5"
  {
    assert DecimalString(5) == "5";
  }

  lemma Numeral12()
    ensures DecimalString(12) + "abc" == "12abc"
  {
    assert DecimalString(12) == "12";
  }

  lemma Numeral1001()
    ensures DecimalString(1001) == "1001"
  {
    assert DecimalString(10) == "10";
    assert DecimalString(100) == "100";
  }

  /** The empty string is NaN. */
  lemma ParseIntEmpty()
    ensures ParseInt("") == NaN
  {
  }

  /** A word is NaN. */
  lemma ParseIntWord()
    ensures ParseInt("abc") == NaN
  {
    ParseNonNumeric("abc");
  }

  /** The digits at the front are read and the text after them is ignored. */
  lemma ParseIntPrefixExample()
    ensures ParseInt("12abc") == Num(12)
  {
    Numeral12();
    ParseDecimal(12, "abc");
  }

  /** A `0x` prefix switches to radix 16. */
  lemma ParseHex()
    ensures ParseUnsigned("0x1A") == Num(26)
    ensures ParseInt("0x1A") == Num(26)
  {
    assert ParseUnsigned("0x1A") == Num(26) by {
      assert "0x1A"[2..] == "1A";
      assert LeadingDigits("1A", 16) == "1A";
      assert DigitsValue("1A", 16) == 26 by {
        assert "1A"[..1] == "1";
      }
    }
    assert TrimStart("0x1A") == "0x1A";
  }

  // ---------------------------------------------------------------------
  // The history limit
  // ---------------------------------------------------------------------

  /**
   * `parseInt(req.query.limit) || 100`.  An absent parameter reads as the
   * string "undefined", which is NaN; NaN and zero are falsy.
   */
  function NormalizedLimit(query: Option<string>): (limit: int)
    ensures limit != 0
    ensures query.None? ==> limit == 100
    ensures query.Some? && ParseInt(query.value).NaN? ==> limit == 100
    ensures query.Some? && ParseInt(query.value) == Num(0) ==> limit == 100
    ensures query.Some? && ParseInt(query.value).Num? && ParseInt(query.value).value != 0 ==>
              limit == ParseInt(query.value).value
  {
    var parsed := if query.None? then NaN else ParseInt(query.value);
    match parsed
    case NaN => 100
    case Num(v) => if v == 0 then 100 else v
  }

  /** Whether the history route goes on to the service, and with which limit. */
  datatype LimitCheck = UseLimit(limit: nat) | BadLimit

  /** The range check after normalising: 1 to 1000 inclusive. */
  function CheckLimit(query: Option<string>): (c: LimitCheck)
    ensures c.UseLimit? <==> 1 <= NormalizedLimit(query) <= 1000
    ensures c.UseLimit? ==> c.limit == NormalizedLimit(query) && 1 <= c.limit <= 1000
  {
    var limit := NormalizedLimit(query);
    if limit < 1 || limit > 1000 then BadLimit else UseLimit(limit)
  }

  /** Once the text has been read as a number, only that number decides the check. */
  lemma LimitOfParsed(q: string, v: int)
    requires ParseInt(q) == Num(v)
    ensures v == 0 ==> CheckLimit(Some(q)) == UseLimit(100)
    ensures 1 <= v <= 1000 ==> CheckLimit(Some(q)) == UseLimit(v)
    ensures v < 0 || v > 1000 ==> CheckLimit(Some(q)) == BadLimit
  {
  }

  /** Text that is not a number gives the default. */
  lemma LimitOfNaN(q: string)
    requires ParseInt(q) == NaN
    ensures CheckLimit(Some(q)) == UseLimit(100)
  {
  }

  /** Any numeral from 1 to 1000 is passed on unchanged; a larger one, or a negative one, is refused. */
  lemma LimitOfNumeral(n: nat)
    ensures 1 <= n <= 1000 ==> CheckLimit(Some(DecimalString(n))) == UseLimit(n)
    ensures n > 1000 ==> CheckLimit(Some(DecimalString(n))) == BadLimit
    ensures n > 0 ==> CheckLimit(Some("-" + DecimalString(n))) == BadLimit
  {
    ParseNumeral(n);
    LimitOfParsed(DecimalString(n), n);
    LimitOfParsed("-" + DecimalString(n), -(n as int));
  }

  /** The default applies to an absent, empty or non-numeric limit. */
  lemma LimitDefaults()
    ensures CheckLimit(None) == UseLimit(100)
    ensures CheckLimit(Some("")) == UseLimit(100)
    ensures CheckLimit(Some("abc")) == UseLimit(100)
  {
    ParseIntEmpty();
    LimitOfNaN("");
    ParseIntWord();
    LimitOfNaN("abc");
  }

  /** `0` is falsy, so it gives the default. */
  lemma ZeroLimitDefaults()
    ensures CheckLimit(Some("0")) == UseLimit(100)
  {
    ZeroParses();
    LimitOfParsed("0", 0);
  }

  /** `0` reads as zero. */
  lemma ZeroParses()
    ensures ParseInt("0") == Num(0)
  {
    Numeral0();
    UnsignedDecimal(0, "");
    assert DecimalString(0) + "" == "0";
    DigitFirst("0", "", 0);
    assert "0" + "" == "0";
  }

  /** `-0` parses to a negative zero, which is falsy too. */
  lemma NegativeZeroLimitDefaults()
    ensures CheckLimit(Some("-0")) == UseLimit(100)
  {
    NegativeZeroParses();
    LimitOfParsed("-0", 0);
  }

  /** `-0` reads as zero. */
  lemma NegativeZeroParses()
    ensures ParseInt("-0") == Num(0)
  {
    var z := "0";
    Numeral0();
    UnsignedDecimal(0, "");
    assert DecimalString(0) + "" == z;
    MinusNegates(z);
    assert "-0" == "-" + z;
    assert "-0"[0] == '-';
    NoSpaceToTrim("-0");
  }

  /** `-5` is refused. */
  lemma NegativeLimitRefused()
    ensures CheckLimit(Some("-5")) == BadLimit
  {
    LimitOfNumeral(5);
    Numeral5();
  }

  /** `1001` is refused. */
  lemma LargeLimitRefused()
    ensures CheckLimit(Some("1001")) == BadLimit
  {
    LimitOfNumeral(1001);
    Numeral1001();
  }

  // ---------------------------------------------------------------------
  // Responses
  // ---------------------------------------------------------------------

  /** A call into the click service: its value, or the message of what it threw. */
  datatype Outcome<T> = Returned(value: T) | Threw(message: string)

  /** The `data` member of a successful response, one shape per route. */
  datatype Data =
    | Receipt(receipt: ClickReceipt)
    | ClickCount(userId: string, totalClicks: nat)
    | History(userId: string, clicks: seq<HistoryEntry>, count: nat)
    | Stats(stats: GlobalStats)
    | Me(info: UserInfo)
    | Deleted(deletedClicks: nat)

  /**
   * `{success: true, message?, data}` (the optional message is `note`),
   * `{success: false, error, message}` from a handler, or the
   * authentication middleware's `{error, message}`, which has no
   * `success` member.
   */
  datatype Body =
    | Succeeded(note: Option<string>, data: Data)
    | Failed(error: string, message: string)
    | Unauthorized(error: string, message: string)

  datatype Response = Response(status: nat, body: Body)

  /** `success` is true exactly on a 2xx status. */
  predicate Consistent(r: Response)
  {
    (r.status == 200 || r.status == 201) <==> r.body.Succeeded?
  }

  /** `POST /api/clicks`: 201 with the new click, or 500. */
  function PostClick(outcome: Outcome<ClickReceipt>): (r: Response)
    ensures Consistent(r)
    ensures r.status == 201 <==> outcome.Returned?
    ensures outcome.Returned? ==> r.body == Succeeded(Some("Click recorded successfully"), Receipt(outcome.value))
    ensures outcome.Threw? ==> r == Response(500, Failed("Error recording click", outcome.message))
  {
    match outcome
    case Returned(receipt) => Response(201, Succeeded(Some("Click recorded successfully"), Receipt(receipt)))
    case Threw(message) => Response(500, Failed("Error recording click", message))
  }

  /** `GET /api/clicks/count`: 200 with the caller's id and count, or 500. */
  function GetCount(userId: string, outcome: Outcome<nat>): (r: Response)
    ensures Consistent(r)
    ensures r.status == 200 <==> outcome.Returned?
    ensures outcome.Returned? ==> r.body.data == ClickCount(userId, outcome.value)
    ensures outcome.Threw? ==> r == Response(500, Failed("Error getting click count", outcome.message))
  {
    match outcome
    case Returned(count) => Response(200, Succeeded(None, ClickCount(userId, count)))
    case Threw(message) => Response(500, Failed("Error getting click count", message))
  }

  /**
   * `GET /api/clicks/history`: 400 for a limit outside 1..1000 (the
   * service is not called), otherwise the service's list with its length
   * as `count`, or 500.
   */
  function GetHistory(userId: string, query: Option<string>,
                      service: nat -> Outcome<seq<HistoryEntry>>): (r: Response)
    ensures Consistent(r)
    ensures CheckLimit(query).BadLimit? ==>
              r == Response(400, Failed("Invalid limit", "Limit must be between 1 and 1000"))
    ensures CheckLimit(query).UseLimit? ==>
              var outcome := service(CheckLimit(query).limit);
              && (outcome.Returned? ==> r.status == 200 && r.body.data.History? && r.body.data.userId == userId
                                        && r.body.data.clicks == outcome.value
                                        && r.body.data.count == |outcome.value|)
              && (outcome.Threw? ==> r == Response(500, Failed("Error getting click history", outcome.message)))
  {
    match CheckLimit(query)
    case BadLimit => Response(400, Failed("Invalid limit", "Limit must be between 1 and 1000"))
    case UseLimit(limit) =>
      match service(limit)
      case Returned(history) => Response(200, Succeeded(None, History(userId, history, |history|)))
      case Threw(message) => Response(500, Failed("Error getting click history", message))
  }

  /** A refused limit never reaches the service: the response is the same whatever the service would do. */
  lemma BadLimitSkipsService(userId: string, query: Option<string>,
                             service: nat -> Outcome<seq<HistoryEntry>>, service': nat -> Outcome<seq<HistoryEntry>>)
    requires CheckLimit(query).BadLimit?
    ensures GetHistory(userId, query, service) == GetHistory(userId, query, service')
    ensures GetHistory(userId, query, service).status == 400
  {
  }

  /** `GET /api/clicks/stats`: 200 with the statistics, or 500. */
  function GetStats(outcome: Outcome<GlobalStats>): (r: Response)
    ensures Consistent(r)
    ensures r.status == 200 <==> outcome.Returned?
    ensures outcome.Returned? ==> r.body.data == Stats(outcome.value)
    ensures outcome.Threw? ==> r == Response(500, Failed("Error getting statistics", outcome.message))
  {
    match outcome
    case Returned(stats) => Response(200, Succeeded(None, Stats(stats)))
    case Threw(message) => Response(500, Failed("Error getting statistics", message))
  }

  /** `GET /api/clicks/me`: 404 exactly when the service finds no user, 200 with the info, or 500. */
  function GetMe(outcome: Outcome<Option<UserInfo>>): (r: Response)
    ensures Consistent(r)
    ensures r.status == 404 <==> outcome == Returned(None)
    ensures r.status == 200 <==> outcome.Returned? && outcome.value.Some?
    ensures r.status == 200 ==> r.body.data == Me(outcome.value.value)
    ensures outcome.Threw? ==> r == Response(500, Failed("Error getting user information", outcome.message))
  {
    match outcome
    case Returned(None) => Response(404, Failed("User not found", "Could not find user information"))
    case Returned(Some(info)) => Response(200, Succeeded(None, Me(info)))
    case Threw(message) => Response(500, Failed("Error getting user information", message))
  }

  /** `DELETE /api/clicks/logout`: 200 with the number of clicks deleted, or 500. */
  function DeleteLogout(outcome: Outcome<nat>): (r: Response)
    ensures Consistent(r)
    ensures r.status == 200 <==> outcome.Returned?
    ensures outcome.Returned? ==> r.body == Succeeded(Some("User clicks deleted successfully"), Deleted(outcome.value))
    ensures outcome.Threw? ==> r == Response(500, Failed("Error deleting clicks", outcome.message))
  {
    match outcome
    case Returned(deleted) => Response(200, Succeeded(Some("User clicks deleted successfully"), Deleted(deleted)))
    case Threw(message) => Response(500, Failed("Error deleting clicks", message))
  }

  /**
   * A route behind the authentication middleware: a rejection becomes its
   * 401 response and the handler does not run; otherwise the handler runs
   * with `req.user`.
   */
  function Guarded(decision: Auth.AuthDecision, handler: Auth.Identity -> Response): (r: Response)
    requires decision.Proceed? ==> decision.user.Some?
    ensures decision.Reject? ==>
              r == Response(401, Unauthorized("Unauthorized", decision.error.Message()))
    ensures decision.Proceed? ==> r == handler(decision.user.value)
  {
    match decision
    case Reject(e) => Response(e.Status(), Unauthorized(e.Error(), e.Message()))
    case Proceed(user) => handler(user.value)
  }

  /** A request without a token never reaches any handler. */
  lemma UnauthenticatedNeverHandled(verify: string -> Auth.Verification, fetchProfile: string -> Option<Auth.Profile>,
                                    handler: Auth.Identity -> Response, handler': Auth.Identity -> Response)
    ensures Guarded(Auth.Authenticate(None, verify, fetchProfile), handler)
         == Guarded(Auth.Authenticate(None, verify, fetchProfile), handler')
    ensures Guarded(Auth.Authenticate(None, verify, fetchProfile), handler).status == 401
  {
    Auth.MissingHeaderRejected(None, verify, fetchProfile, verify, fetchProfile);
  }

  // ---------------------------------------------------------------------
  // Routes over the ledger
  // ---------------------------------------------------------------------

  /** The history service over the tables. */
  function LedgerHistory(clicks: seq<ClickRow>, userId: string): nat -> Outcome<seq<HistoryEntry>>
  {
    (limit: nat) => Returned(UserClickHistory(clicks, userId, limit))
  }

  /** History served from the tables: at most the limit, and exactly the user's clicks when there are fewer. */
  lemma HistoryFromLedger(clicks: seq<ClickRow>, userId: string, query: Option<string>)
    requires CheckLimit(query).UseLimit?
    ensures GetHistory(userId, query, LedgerHistory(clicks, userId)).status == 200
    ensures GetHistory(userId, query, LedgerHistory(clicks, userId)).body.Succeeded?
    ensures GetHistory(userId, query, LedgerHistory(clicks, userId)).body.data.History?
    ensures GetHistory(userId, query, LedgerHistory(clicks, userId)).body.data.count
         == Min(CheckLimit(query).limit, UserClickCount(clicks, userId))
  {
    var limit := CheckLimit(query).limit;
    assert LedgerHistory(clicks, userId)(limit) == Returned(UserClickHistory(clicks, userId, limit));
  }

  /** `/me` served from the tables answers 404 exactly for a user with no row. */
  lemma MeFromLedger(users: map<string, UserRow>, clicks: seq<ClickRow>, userId: string)
    ensures GetMe(Returned(UserInfoOf(users, clicks, userId))).status == 404 <==> userId !in users
    ensures userId in users ==>
              GetMe(Returned(UserInfoOf(users, clicks, userId))).body.data.info.totalClicks == UserClickCount(clicks, userId)
  {
  }
}
