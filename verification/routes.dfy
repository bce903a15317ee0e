/**
 * The text routes of the web_flask applications (2-c_route.py,
 * 3-python_route.py, 4-number_route.py, 6-number_odd_or_even.py). Each
 * file repeats the handlers of the one before it and adds new ones.
 */
module Routes {
  import opened Wrappers
  import opened Decimal

  /** A handler's reply: plain text, a template with its variables, or 404. */
  datatype Response =
    | Text(body: string)
    | Rendered(template: string, number: int, parity: Option<string>)
    | NotFound

  const HelloText := "Hello HBNB!"
  const HbnbText := "HBNB"
  const PythonDefault := "is cool"

  /** `hello`, served at "/". */
  function Hello(): (r: Response)
    ensures r.Text? && r.body == HelloText
  {
    Text("Hello HBNB!")
  }

  /** `hbnb`, served at "/hbnb". */
  function Hbnb(): (r: Response)
    ensures r.Text? && r.body == HbnbText
  {
    Text("HBNB")
  }

  /** `text.replace('_', ' ')`: every underscore becomes a space, every other character stays in place. */
  function ReplaceUnderscores(t: string): (r: string)
    ensures |r| == |t|
    ensures forall i :: 0 <= i < |t| ==> r[i] == (if t[i] == '_' then ' ' else t[i])
  {
    if |t| == 0 then [] else (if t[0] == '_' then " " else [t[0]]) + ReplaceUnderscores(t[1..])
  }

  /** No underscore survives the replacement. */
  lemma NoUnderscoreLeft(t: string)
    ensures '_' !in ReplaceUnderscores(t)
  {
  }

  /** Replacing twice is replacing once. */
  lemma ReplaceIdempotent(t: string)
    ensures ReplaceUnderscores(ReplaceUnderscores(t)) == ReplaceUnderscores(t)
  {
    var r := ReplaceUnderscores(t);
    assert forall i :: 0 <= i < |r| ==> ReplaceUnderscores(r)[i] == r[i];
  }

  /** A text without underscores is left unchanged. */
  lemma ReplaceKeepsPlainText(t: string)
    requires '_' !in t
    ensures ReplaceUnderscores(t) == t
  {
    assert forall i :: 0 <= i < |t| ==> ReplaceUnderscores(t)[i] == t[i];
  }

  /** `c_text`: "C " then the text with underscores shown as spaces. */
  function CText(t: string): (r: Response)
    ensures r.Text? && |r.body| == |t| + 2 && r.body[..2] == "C "
    ensures '_' !in r.body
    ensures forall i :: 0 <= i < |t| ==> r.body[i + 2] == (if t[i] == '_' then ' ' else t[i])
  {
    NoUnderscoreLeft(t);
    Text("C " + ReplaceUnderscores(t))
  }

  /** `py_text`: "Python " then the text with underscores shown as spaces. */
  function PyText(t: string): (r: Response)
    ensures r.Text? && |r.body| == |t| + 7 && r.body[..7] == "Python "
    ensures '_' !in r.body
    ensures forall i :: 0 <= i < |t| ==> r.body[i + 7] == (if t[i] == '_' then ' ' else t[i])
  {
    NoUnderscoreLeft(t);
    Text("Python " + ReplaceUnderscores(t))
  }

  /** "/python/" with no text uses the default "is cool". */
  lemma PythonDefaultIsCool()
    ensures PyText(PythonDefault) == Text("Python is cool")
  {
    var t := PythonDefault;
    assert forall i :: 0 <= i < |t| ==> t[i] != '_';
    ReplaceKeepsPlainText(t);
    assert "Python " + t == "Python is cool";
  }

  /**
   * `number`: "<n> is a number" with n written canonically when the text
   * parses as an integer, 404 otherwise.
   */
  function Number(s: string): (r: Response)
    ensures r.Text? <==> IsIntLiteral(s)
    ensures r.NotFound? <==> !IsIntLiteral(s)
    ensures ParseInt(s).Some? ==> r == Text(IntToDecimal(ParseInt(s).value) + " is a number")
  {
    match ParseInt(s)
    case Some(n) => Text(IntToDecimal(n) + " is a number")
    case None => NotFound
  }

  /** An integer's own spelling is echoed back, and so is any spelling with leading zeros, canonically. */
  lemma NumberEchoesCanonically(i: int, zeros: nat, n: nat)
    ensures Number(IntToDecimal(i)) == Text(IntToDecimal(i) + " is a number")
    ensures Number(Zeros(zeros) + NatToDecimal(n)) == Text(NatToDecimal(n) + " is a number")
  {
    ParseIntOfDecimal(i);
    ParseIntIgnoresLeadingZeros(zeros, n);
  }

  /**
   * Any signed, zero-padded spelling is answered with the canonical decimal
   * of its value: "+7" gives "7", "-007" gives "-7" and "-0" gives "0".
   */
  lemma NumberOfSpelling(sign: string, k: nat, n: nat)
    requires sign == "" || sign == "+" || sign == "-"
    ensures Number(sign + Zeros(k) + NatToDecimal(n))
            == Text((if sign == "-" && n > 0 then "-" else "") + NatToDecimal(n) + " is a number")
  {
    var v := if sign == "-" then 0 - n else n;
    ParseIntOfSpelling(sign, k, n);
    assert ParseInt(sign + Zeros(k) + NatToDecimal(n)) == Some(v);
    var t := IntToDecimal(v);
    if sign == "-" && n > 0 {
      assert t == [t[0]] + t[1..];
      assert t == "-" + NatToDecimal(n);
    } else {
      assert v == n;
      assert t == NatToDecimal(n);
    }
  }

  /** "007" is the number 7. */
  lemma NumberDropsLeadingZeros()
    ensures Number("007") == Text("7 is a number")
  {
    NumberEchoesCanonically(0, 2, 7);
    assert Zeros(2) + NatToDecimal(7) == "007";
  }

  /** "+7" is 7: a leading '+' is accepted and dropped from the reply. */
  lemma NumberPlusSign()
    ensures Number("+7") == Text("7 is a number")
  {
    assert NatToDecimal(7) == "7";
    NumberOfSpelling("+", 0, 7);
    assert "+" + Zeros(0) + NatToDecimal(7) == "+7";
  }

  /** "-007" is -7. */
  lemma NumberNegativePadded()
    ensures Number("-007") == Text("-7 is a number")
  {
    var digits := NatToDecimal(7);
    assert digits == "7";
    var zeros := Zeros(2);
    assert zeros == "00";
    NumberOfSpelling("-", 2, 7);
    assert "-" + zeros + digits == "-007";
    assert "-" + digits + " is a number" == "-7 is a number";
  }

  /** "-0" is 0, answered without a sign. */
  lemma NumberNegativeZero()
    ensures Number("-0") == Text("0 is a number")
  {
    assert NatToDecimal(0) == "0";
    assert Zeros(0) == "";
    NumberOfSpelling("-", 0, 0);
    assert "-" + Zeros(0) + NatToDecimal(0) == "-0";
  }

  /** The label `number_odd_or_even` passes to its template. */
  function ParityLabel(n: int): (tag: string)
    ensures tag == "even" || tag == "odd"
    ensures tag == "even" <==> n % 2 == 0
  {
    if n % 2 == 0 then "even" else "odd"
  }

  /** Numbers two apart share a label; consecutive numbers never do. */
  lemma ParityLabelPeriod(n: int)
    ensures ParityLabel(n + 2) == ParityLabel(n)
    ensures ParityLabel(n + 1) != ParityLabel(n)
  {
  }

  /** `number_temp`: the number page template with the number. */
  function NumberTemplate(n: int): (r: Response)
    ensures r.Rendered? && r.number == n && r.parity.None?
    ensures r.template == "5-number.html"
  {
    Rendered("5-number.html", n, None)
  }

  /** `number_odd_or_even`: the parity page template with the number and its label. */
  function NumberOddOrEven(n: int): (r: Response)
    ensures r.Rendered? && r.number == n && r.template == "6-number_odd_or_even.html"
    ensures r.parity.Some? && (r.parity.value == "even" <==> n % 2 == 0)
    ensures r.parity.Some? && (r.parity.value == "odd" <==> n % 2 == 1)
  {
    Rendered("6-number_odd_or_even.html", n, Some(ParityLabel(n)))
  }

  /** The four application files, named by the number in their file name. */
  datatype App = CRoute | PythonRoute | NumberRoute | OddOrEven

  function FileNumber(app: App): nat {
    match app
    case CRoute => 2
    case PythonRoute => 3
    case NumberRoute => 4
    case OddOrEven => 6
  }

  /**
   * A request after URL matching: the handler it reaches and its argument.
   * `PythonPage(None)` is "/python/" with no text.
   */
  datatype Request =
    | RootPage
    | HbnbPage
    | CPage(text: string)
    | PythonPage(pythonText: Option<string>)
    | NumberPage(raw: string)
    | NumberTemplatePage(n: int)
    | OddOrEvenPage(n: int)

  /** The first application file that registers the route `req` reaches. */
  function Introduced(req: Request): nat {
    match req
    case RootPage => 2
    case HbnbPage => 2
    case CPage(_) => 2
    case PythonPage(_) => 3
    case NumberPage(_) => 4
    case NumberTemplatePage(_) => 6
    case OddOrEvenPage(_) => 6
  }

  /**
   * The reply of `app` to `req`. A route the file does not register gets
   * 404; a registered one always answers, except "/number/<n>" for a
   * non-integer.
   */
  function Serve(app: App, req: Request): (r: Response)
    ensures FileNumber(app) < Introduced(req) ==> r == NotFound
    ensures FileNumber(app) >= Introduced(req) && !req.NumberPage? ==> r != NotFound
    ensures FileNumber(app) >= Introduced(req) && req.NumberPage? ==> (r == NotFound <==> !IsIntLiteral(req.raw))
  {
    var level := FileNumber(app);
    match req
    case RootPage => Hello()
    case HbnbPage => Hbnb()
    case CPage(t) => CText(t)
    case PythonPage(t) => if level >= 3 then PyText(t.GetOr(PythonDefault)) else NotFound
    case NumberPage(s) => if level >= 4 then Number(s) else NotFound
    case NumberTemplatePage(n) => if level >= 6 then NumberTemplate(n) else NotFound
    case OddOrEvenPage(n) => if level >= 6 then NumberOddOrEven(n) else NotFound
  }

  /** Each file serves every route of the files before it exactly as they do. */
  lemma LaterFilesExtendEarlier(a: App, b: App, req: Request)
    requires FileNumber(a) <= FileNumber(b)
    requires Serve(a, req) != NotFound
    ensures Serve(b, req) == Serve(a, req)
  {
  }

  /** 2-c_route.py: "/", "/hbnb" and "/c/<text>" only. */
  lemma CRouteFile(t: string, other: Request)
    requires !other.RootPage? && !other.HbnbPage? && !other.CPage?
    ensures Serve(CRoute, RootPage) == Text("Hello HBNB!")
    ensures Serve(CRoute, HbnbPage) == Text("HBNB")
    ensures Serve(CRoute, CPage(t)) == Text("C " + ReplaceUnderscores(t))
    ensures Serve(CRoute, other) == NotFound
  {
  }

  /** 3-python_route.py adds "/python/" (default "is cool") and "/python/<text>". */
  lemma PythonRouteFile(t: string)
    ensures Serve(PythonRoute, PythonPage(None)) == Text("Python is cool")
    ensures Serve(PythonRoute, PythonPage(Some(t))) == Text("Python " + ReplaceUnderscores(t))
    ensures Serve(PythonRoute, NumberPage("1")) == NotFound
  {
    PythonDefaultIsCool();
  }

  /** 4-number_route.py adds "/number/<n>", which answers 404 for non-integers. */
  lemma NumberRouteFile(s: string)
    ensures Serve(NumberRoute, NumberPage(s)) == Number(s)
    ensures Serve(NumberRoute, NumberPage(s)).NotFound? <==> !IsIntLiteral(s)
    ensures Serve(NumberRoute, OddOrEvenPage(0)) == NotFound
  {
  }

  /** 6-number_odd_or_even.py adds the two template pages. */
  lemma OddOrEvenFile(n: int)
    ensures Serve(OddOrEven, OddOrEvenPage(n)) == Rendered("6-number_odd_or_even.html", n, Some(ParityLabel(n)))
    ensures Serve(OddOrEven, NumberTemplatePage(n)) == Rendered("5-number.html", n, None)
  {
  }
}
