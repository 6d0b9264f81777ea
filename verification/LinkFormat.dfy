/** Resource discovery: parsing of link-format payloads (section 2 of RFC 6690), and the list of
    resources a discovery reply accumulates. */
module LinkFormat {
  import opened CoapTypes

  datatype Resource = Resource(host: Address, path: string, title: string, resourceType: string, interface: string,
                               maximumSize: int, contentFormat: nat, observable: bool)

  function Unnamed(host: Address): Resource {
    Resource(host, "", "", "", "", -1, 0, false)
  }

  // Text

  /** The pieces between the separators; there is always at least one. */
  function Split(s: string, separator: char): (pieces: seq<string>)
    ensures pieces != []
  {
    if s == "" then [""]
    else
      var rest := Split(s[1..], separator);
      if s[0] == separator then [""] + rest else [[s[0]] + rest[0]] + rest[1..]
  }

  function WithoutQuotes(s: string): string {
    if s == "" then "" else (if s[0] == '\"' then "" else [s[0]]) + WithoutQuotes(s[1..])
  }

  predicate IsDigits(s: string) {
    s != "" && forall c :: c in s ==> '0' <= c <= '9'
  }

  function DigitValue(c: char): nat {
    if '0' <= c <= '9' then c as int - '0' as int else 0
  }

  function Number(s: string): nat {
    if s == "" then 0 else Number(s[..|s| - 1]) * 10 + DigitValue(s[|s| - 1])
  }

  predicate IsSpace(c: char) {
    c in {' ', '\t', '\n', '\r', '\U{000B}', '\U{000C}'}
  }

  /** The text without the white space around it. */
  function Trimmed(s: string): string {
    if s != "" && IsSpace(s[0]) then Trimmed(s[1..])
    else if s != "" && IsSpace(s[|s| - 1]) then Trimmed(s[..|s| - 1])
    else s
  }

  /** A signed decimal number of 32 bits, white space around it ignored; 0 for any other text. */
  function ToInt(text: string): int {
    var s := Trimmed(text);
    if s != "" && s[0] == '-' && IsDigits(s[1..]) then
      var n: int := Number(s[1..]);
      if n <= 0x8000_0000 then -n else 0
    else
      var digits := if s != "" && s[0] == '+' then s[1..] else s;
      if IsDigits(digits) && Number(digits) < 0x8000_0000 then Number(digits) else 0
  }

  /** An unsigned decimal number of 32 bits, white space around it ignored; 0 for any other text. */
  function ToUInt(text: string): nat {
    var s := Trimmed(text);
    var digits := if s != "" && s[0] == '+' then s[1..] else s;
    if IsDigits(digits) && Number(digits) < 0x1_0000_0000 then Number(digits) else 0
  }

  // Parser

  /** One parameter of a link. The path is what stands between the first and the last character. */
  function SetParameter(r: Resource, p: string): Resource {
    if "<" <= p then r.(path := if |p| >= 2 then p[1..|p| - 1] else "")
    else if "title=" <= p then r.(title := WithoutQuotes(p[6..]))
    else if "rt=" <= p then r.(resourceType := WithoutQuotes(p[3..]))
    else if "if=" <= p then r.(interface := WithoutQuotes(p[3..]))
    else if "sz=" <= p then r.(maximumSize := ToInt(WithoutQuotes(p[3..])))
    else if "ct=" <= p then r.(contentFormat := ToUInt(WithoutQuotes(p[3..])))
    else if p == "obs" then r.(observable := true)
    else r
  }

  function SetParameters(r: Resource, parameters: seq<string>): Resource
    decreases |parameters|
  {
    if parameters == [] then r else SetParameters(SetParameter(r, parameters[0]), parameters[1..])
  }

  function ParseLink(sender: Address, link: string): Resource {
    SetParameters(Unnamed(sender), Split(link, ';'))
  }

  /** Links without a path are dropped. */
  function ParseLinks(sender: Address, links: seq<string>): seq<Resource> {
    if links == [] then []
    else
      var r := ParseLink(sender, links[0]);
      (if r.path == "" then [] else [r]) + ParseLinks(sender, links[1..])
  }

  function Parse(sender: Address, data: string): seq<Resource> {
    ParseLinks(sender, Split(data, ','))
  }

  method ResourceFromLink(sender: Address, link: string) returns (resource: Resource)
    ensures resource == ParseLink(sender, link)
  {
    resource := Unnamed(sender);
    var parameterList := Split(link, ';');
    for j := 0 to |parameterList|
      invariant SetParameters(resource, parameterList[j..]) == ParseLink(sender, link)
    {
      ghost var later := parameterList[j..];
      assert later[0] == parameterList[j] && later[1..] == parameterList[j + 1..];
      resource := SetParameter(resource, parameterList[j]);
    }
    assert parameterList[|parameterList|..] == [];
  }

  lemma OneMoreLink(list: seq<Resource>, sender: Address, links: seq<string>)
    requires links != []
    ensures var r := ParseLink(sender, links[0]);
            list + ParseLinks(sender, links)
            == (if r.path == "" then list else list + [r]) + ParseLinks(sender, links[1..])
  {
    var r, rest := ParseLink(sender, links[0]), ParseLinks(sender, links[1..]);
    Appended(list, [r], rest);
    Appended(list, [], rest);
  }

  lemma Appended<T>(a: seq<T>, b: seq<T>, c: seq<T>)
    ensures a + (b + c) == (a + b) + c && a + [] == a
  {
  }

  method ResourcesFromCoreLinkList(sender: Address, data: string) returns (resourceList: seq<Resource>)
    ensures resourceList == Parse(sender, data)
  {
    resourceList := [];
    var links := Split(data, ',');
    for i := 0 to |links|
      invariant resourceList + ParseLinks(sender, links[i..]) == Parse(sender, data)
    {
      assert links[i..][1..] == links[i + 1..];
      OneMoreLink(resourceList, sender, links[i..]);
      var resource := ResourceFromLink(sender, links[i]);
      if resource.path != "" {
        resourceList := resourceList + [resource];
      }
    }
    assert links[|links|..] == [];
  }

  // Composition

  lemma {:induction false} SplitJoined(a: string, separator: char, b: string)
    ensures Split(a + [separator] + b, separator) == Split(a, separator) + Split(b, separator)
  {
    var all := a + [separator] + b;
    if a == "" {
      assert all[1..] == b;
    } else {
      assert all[1..] == a[1..] + [separator] + b;
      SplitJoined(a[1..], separator, b);
    }
  }

  lemma {:induction false} SplitWhole(s: string, separator: char)
    requires separator !in s
    ensures Split(s, separator) == [s]
  {
    if s != "" {
      SplitWhole(s[1..], separator);
      assert [s[0]] + s[1..] == s;
      assert [s[1..]][1..] == [];
    }
  }

  lemma {:induction false} ParseLinksConcat(sender: Address, a: seq<string>, b: seq<string>)
    ensures ParseLinks(sender, a + b) == ParseLinks(sender, a) + ParseLinks(sender, b)
  {
    if a == [] {
      assert a + b == b;
    } else {
      assert (a + b)[1..] == a[1..] + b;
      ParseLinksConcat(sender, a[1..], b);
    }
  }

  /** Parsing two payloads joined by a comma gives the resources of the one, then of the other. */
  lemma ParseComposes(sender: Address, a: string, b: string)
    ensures Parse(sender, a + "," + b) == Parse(sender, a) + Parse(sender, b)
  {
    SplitJoined(a, ',', b);
    ParseLinksConcat(sender, Split(a, ','), Split(b, ','));
  }

  function Joined(payloads: seq<string>): string {
    if payloads == [] then ""
    else if |payloads| == 1 then payloads[0]
    else Joined(payloads[..|payloads| - 1]) + "," + payloads[|payloads| - 1]
  }

  // The discovery reply

  /** The fields of a discovery reply, the errors it has emitted and the lists it has reported. */
  datatype Discovery = Discovery(finished: bool, message: Message, code: byte, error: Error, errors: seq<Error>,
                                 resources: seq<Resource>, discovered: seq<seq<Resource>>)

  /** A payload as text, byte by byte. */
  function Text(payload: Bytes): string {
    seq(|payload|, i requires 0 <= i < |payload| => payload[i] as char)
  }

  /** One content: an error leaves the list alone, and so does anything once finished. */
  function Discovered(d: Discovery, sender: Address, message: Message, code: byte): Discovery {
    if d.finished then d
    else
      var d' := d.(message := message, code := code);
      if IsError(code) then
        var e := ErrorForResponseCode(code);
        if d.error == e then d' else d'.(error := e, errors := d.errors + [e])
      else
        var found := Parse(sender, Text(message.payload));
        d'.(resources := d.resources + found, discovered := d.discovered + [found])
  }

  class DiscoveryReply {
    var finished: bool
    var message: Message
    var responseCode: byte
    var error: Error
    var errors: seq<Error>
    var resources: seq<Resource>
    var discovered: seq<seq<Resource>>

    constructor ()
      ensures State() == Discovery(false, NO_MESSAGE, INVALID_CODE, Ok, [], [], [])
    {
      finished, message, responseCode, error, errors := false, NO_MESSAGE, INVALID_CODE, Ok, [];
      resources, discovered := [], [];
    }

    function State(): Discovery
      reads this
    {
      Discovery(finished, message, responseCode, error, errors, resources, discovered)
    }

    method SetContent(sender: Address, newMessage: Message, code: byte)
      modifies this
      ensures State() == Discovered(old(State()), sender, newMessage, code)
    {
      if finished {
        return;
      }
      message := newMessage;
      responseCode := code;
      if IsError(code) {
        SetError(ErrorForResponseCode(code));
      } else {
        var res := ResourcesFromCoreLinkList(sender, Text(newMessage.payload));
        resources := resources + res;
        discovered := discovered + [res];
      }
    }

    method SetError(newError: Error)
      modifies this
      ensures State() == if old(error) == newError then old(State())
                         else old(State()).(error := newError, errors := old(errors) + [newError])
    {
      if error != newError {
        error := newError;
        errors := errors + [newError];
      }
    }
  }

  datatype Content = Content(message: Message, code: byte)

  /** Contents from one sender, one after the other. */
  function DiscoveredAll(d: Discovery, sender: Address, contents: seq<Content>): Discovery {
    if contents == [] then d
    else
      var last := contents[|contents| - 1];
      Discovered(DiscoveredAll(d, sender, contents[..|contents| - 1]), sender, last.message, last.code)
  }

  /** The payloads of those that are no errors. */
  function Payloads(contents: seq<Content>): seq<string> {
    if contents == [] then []
    else
      var last := contents[|contents| - 1];
      Payloads(contents[..|contents| - 1]) + if IsError(last.code) then [] else [Text(last.message.payload)]
  }

  lemma OneMoreContent(d: Discovery, sender: Address, c: Content)
    ensures var d' := Discovered(d, sender, c.message, c.code);
            && d'.finished == d.finished
            && d'.resources
               == d.resources + if d.finished || IsError(c.code) then [] else Parse(sender, Text(c.message.payload))
  {
    assert d.resources + [] == d.resources;
  }

  /** The list accumulated over any contents of one sender, errors among them, is what one response with
      all the successful payloads joined by commas would give. */
  lemma {:induction false} AccumulationIsOneParse(d: Discovery, sender: Address, contents: seq<Content>)
    ensures var all := DiscoveredAll(d, sender, contents);
            && all.finished == d.finished
            && all.resources
               == d.resources + if d.finished then [] else Parse(sender, Joined(Payloads(contents)))
  {
    if contents == [] {
      NothingParsed(sender);
      assert d.resources + [] == d.resources;
    } else {
      var front, last := contents[..|contents| - 1], contents[|contents| - 1];
      AccumulationIsOneParse(d, sender, front);
      OneMoreContent(DiscoveredAll(d, sender, front), sender, last);
      if d.finished || IsError(last.code) {
        NothingMore(Payloads(front), DiscoveredAll(d, sender, front).resources);
      } else {
        OneMorePayload(Payloads(front), Text(last.message.payload), sender);
        Appended(d.resources, Parse(sender, Joined(Payloads(front))), Parse(sender, Text(last.message.payload)));
      }
    }
  }

  lemma NothingMore<S, T>(a: seq<S>, b: seq<T>)
    ensures a + [] == a && b + [] == b
  {
  }

  lemma OneMorePayload(payloads: seq<string>, last: string, sender: Address)
    ensures Parse(sender, Joined(payloads + [last])) == Parse(sender, Joined(payloads)) + Parse(sender, last)
  {
    if payloads == [] {
      NothingParsed(sender);
      assert [] + [last] == [last] && Joined([last]) == last;
      assert [] + Parse(sender, last) == Parse(sender, last);
    } else {
      JoinedMore(payloads, last);
      ParseComposes(sender, Joined(payloads), last);
    }
  }

  lemma JoinedMore(payloads: seq<string>, last: string)
    requires payloads != []
    ensures Joined(payloads + [last]) == Joined(payloads) + "," + last
  {
    assert (payloads + [last])[..|payloads|] == payloads;
  }

  // Round trip

  function Digit(d: nat): char
    requires d < 10
  {
    ('0' as int + d) as char
  }

  function Decimal(n: nat): (s: string)
    ensures s != "" && forall c :: c in s ==> '0' <= c <= '9'
  {
    if n < 10 then [Digit(n)] else Decimal(n / 10) + [Digit(n % 10)]
  }

  lemma {:induction false} NumberOfDecimal(n: nat)
    ensures Number(Decimal(n)) == n
  {
    if n < 10 {
      assert [Digit(n)][..0] == "";
      assert Number("") == 0;
    } else {
      NumberOfDecimal(n / 10);
      assert Decimal(n)[..|Decimal(n)| - 1] == Decimal(n / 10);
    }
  }

  function Signed(n: int): string {
    if n < 0 then "-" + Decimal(-n) else Decimal(n)
  }

  lemma NothingToTrim(s: string)
    requires forall c :: c in s ==> !IsSpace(c)
    ensures Trimmed(s) == s
  {
    if s != "" {
      assert s[0] in s && s[|s| - 1] in s;
    }
  }

  lemma SignedBack(n: int)
    requires -0x8000_0000 <= n < 0x8000_0000
    ensures ToInt(Signed(n)) == n
  {
    if n < 0 {
      NegativeBack(-n);
    } else {
      NonNegativeBack(n);
    }
  }

  lemma NonNegativeBack(n: nat)
    requires n < 0x8000_0000
    ensures ToInt(Decimal(n)) == n
  {
    NumberOfDecimal(n);
    NothingToTrim(Decimal(n));
    assert Decimal(n)[0] in Decimal(n);
  }

  lemma NegativeBack(n: nat)
    requires n <= 0x8000_0000
    ensures ToInt("-" + Decimal(n)) == 0 - n
  {
    var s := "-" + Decimal(n);
    NumberOfDecimal(n);
    NothingToTrim(s);
    assert s[0] == '-' && s[1..] == Decimal(n);
  }

  lemma UnsignedBack(n: nat)
    requires n < 0x1_0000_0000
    ensures ToUInt(Decimal(n)) == n
  {
    NumberOfDecimal(n);
    NothingToTrim(Decimal(n));
    assert Decimal(n)[0] in Decimal(n);
  }

  lemma {:induction false} NoQuotes(s: string)
    requires '\"' !in s
    ensures WithoutQuotes(s) == s
  {
    if s != "" {
      NoQuotes(s[1..]);
    }
  }

  predicate PlainText(s: string) {
    ',' !in s && ';' !in s && '\"' !in s
  }

  lemma DecimalIsPlain(n: int)
    ensures PlainText(Signed(n)) && (n >= 0 ==> PlainText(Decimal(n)))
  {
  }

  /** Resources as a link-format document can carry them. */
  predicate Renderable(r: Resource, sender: Address) {
    && r.host == sender && r.path != "" && ',' !in r.path && ';' !in r.path
    && PlainText(r.title) && PlainText(r.resourceType) && PlainText(r.interface)
    && -0x8000_0000 <= r.maximumSize < 0x8000_0000 && r.contentFormat < 0x1_0000_0000
  }

  /** A value as it stands, or in quotes. */
  function Value(v: string, quoted: bool): string {
    if quoted then "\"" + v + "\"" else v
  }

  function Parameters(r: Resource, quoted: bool): seq<string> {
    ["<" + r.path + ">", "title=" + Value(r.title, quoted), "rt=" + Value(r.resourceType, quoted),
     "if=" + Value(r.interface, quoted), "sz=" + Value(Signed(r.maximumSize), quoted),
     "ct=" + Value(Decimal(r.contentFormat), quoted)]
    + if r.observable then ["obs"] else []
  }

  function JoinWith(separator: char, pieces: seq<string>): string
    requires pieces != []
  {
    if |pieces| == 1 then pieces[0] else pieces[0] + [separator] + JoinWith(separator, pieces[1..])
  }

  function RenderLink(r: Resource, quoted: bool): string {
    JoinWith(';', Parameters(r, quoted))
  }

  function Rendered(resources: seq<Resource>, quoted: bool): seq<string> {
    if resources == [] then [] else [RenderLink(resources[0], quoted)] + Rendered(resources[1..], quoted)
  }

  function Render(resources: seq<Resource>, quoted: bool): string {
    if resources == [] then "" else JoinWith(',', Rendered(resources, quoted))
  }

  lemma {:induction false} SplitJoin(separator: char, pieces: seq<string>)
    requires pieces != [] && forall p :: p in pieces ==> separator !in p
    ensures Split(JoinWith(separator, pieces), separator) == pieces
  {
    assert pieces[0] in pieces;
    SplitWhole(pieces[0], separator);
    if |pieces| > 1 {
      SplitJoin(separator, pieces[1..]);
      SplitJoined(pieces[0], separator, JoinWith(separator, pieces[1..]));
    }
  }

  lemma {:induction false} JoinMembers(separator: char, pieces: seq<string>, c: char)
    requires pieces != [] && c != separator && forall p :: p in pieces ==> c !in p
    ensures c !in JoinWith(separator, pieces)
  {
    assert pieces[0] in pieces;
    if |pieces| > 1 {
      JoinMembers(separator, pieces[1..], c);
    }
  }

  lemma PathBack(r: Resource, path: string)
    ensures SetParameter(r, "<" + path + ">") == r.(path := path)
  {
    var p := "<" + path + ">";
    assert p[1..|p| - 1] == path;
  }

  lemma TextSet(r: Resource, v: string)
    ensures SetParameter(r, "title=" + v) == r.(title := WithoutQuotes(v))
    ensures SetParameter(r, "rt=" + v) == r.(resourceType := WithoutQuotes(v))
    ensures SetParameter(r, "if=" + v) == r.(interface := WithoutQuotes(v))
  {
    Head("title=", v);
    Head("rt=", v);
    Head("if=", v);
  }

  lemma SizeSet(r: Resource, v: string)
    ensures SetParameter(r, "sz=" + v) == r.(maximumSize := ToInt(WithoutQuotes(v)))
  {
    Head("sz=", v);
  }

  lemma FormatSet(r: Resource, v: string)
    ensures SetParameter(r, "ct=" + v) == r.(contentFormat := ToUInt(WithoutQuotes(v)))
  {
    Head("ct=", v);
  }

  lemma TextBack(r: Resource, v: string, quoted: bool)
    requires PlainText(v)
    ensures SetParameter(r, "title=" + Value(v, quoted)) == r.(title := v)
    ensures SetParameter(r, "rt=" + Value(v, quoted)) == r.(resourceType := v)
    ensures SetParameter(r, "if=" + Value(v, quoted)) == r.(interface := v)
  {
    ValueBack(v, quoted);
    TextSet(r, Value(v, quoted));
  }

  lemma ValueBack(v: string, quoted: bool)
    requires '\"' !in v
    ensures WithoutQuotes(Value(v, quoted)) == v
  {
    NoQuotes(v);
    if quoted {
      QuoteGoes("", v + "\"");
      QuoteGoes(v, "");
      assert "" + "\"" + (v + "\"") == Value(v, true) && v + "\"" + "" == v + "\"" && "" + (v + "\"") == v + "\"";
      assert v + "" == v;
    }
  }

  lemma {:induction false} QuoteGoes(a: string, b: string)
    ensures WithoutQuotes(a + "\"" + b) == WithoutQuotes(a + b)
  {
    if a == "" {
      assert (a + "\"" + b)[1..] == b && a + b == b;
    } else {
      QuoteGoes(a[1..], b);
      assert (a + "\"" + b)[1..] == a[1..] + "\"" + b && (a + b)[1..] == a[1..] + b;
    }
  }

  lemma Head(name: string, v: string)
    requires |name| >= 3
    ensures (name + v)[0] == name[0] && (name + v)[1] == name[1] && (name + v)[..|name|] == name
    ensures (name + v)[|name|..] == v
  {
  }

  lemma NumbersBack(r: Resource, v: string, quoted: bool)
    requires PlainText(v)
    ensures SetParameter(r, "sz=" + Value(v, quoted)) == r.(maximumSize := ToInt(v))
    ensures SetParameter(r, "ct=" + Value(v, quoted)) == r.(contentFormat := ToUInt(v))
  {
    ValueBack(v, quoted);
    SizeSet(r, Value(v, quoted));
    FormatSet(r, Value(v, quoted));
  }

  lemma SetTwo(r: Resource, a: string, rest: seq<string>)
    ensures SetParameters(r, [a] + rest) == SetParameters(SetParameter(r, a), rest)
  {
    assert ([a] + rest)[1..] == rest;
  }

  lemma ParametersBack(r: Resource, sender: Address, quoted: bool)
    requires Renderable(r, sender)
    ensures SetParameters(Unnamed(sender), Parameters(r, quoted)) == r
  {
    var last := if r.observable then ["obs"] else [];
    var size, format := Signed(r.maximumSize), Decimal(r.contentFormat);
    var r1 := Unnamed(sender).(path := r.path);
    var r2 := r1.(title := r.title);
    var r3 := r2.(resourceType := r.resourceType);
    var r4 := r3.(interface := r.interface);
    var r5 := r4.(maximumSize := r.maximumSize);
    var r6 := r5.(contentFormat := r.contentFormat);
    DecimalIsPlain(r.maximumSize);
    DecimalIsPlain(r.contentFormat);
    SignedBack(r.maximumSize);
    UnsignedBack(r.contentFormat);
    PathBack(Unnamed(sender), r.path);
    TextBack(r1, r.title, quoted);
    TextBack(r2, r.resourceType, quoted);
    TextBack(r3, r.interface, quoted);
    NumbersBack(r4, size, quoted);
    NumbersBack(r5, format, quoted);
    InTurn(Unnamed(sender), "<" + r.path + ">", "title=" + Value(r.title, quoted),
           "rt=" + Value(r.resourceType, quoted), "if=" + Value(r.interface, quoted), "sz=" + Value(size, quoted),
           "ct=" + Value(format, quoted), last);
    ObservableBack(r6, r.observable);
  }

  lemma ObservableBack(r: Resource, observable: bool)
    requires !r.observable
    ensures SetParameters(r, if observable then ["obs"] else []) == r.(observable := observable)
  {
    if observable {
      assert ["obs"][1..] == [];
      assert "obs"[0] == 'o';
    }
  }

  lemma InTurn(r: Resource, a: string, b: string, c: string, d: string, e: string, f: string, rest: seq<string>)
    ensures SetParameters(r, [a, b, c, d, e, f] + rest)
         == SetParameters(SetParameter(SetParameter(SetParameter(SetParameter(SetParameter(SetParameter(r, a), b), c),
                                                                 d), e), f), rest)
  {
    var r1 := SetParameter(r, a);
    var r2 := SetParameter(r1, b);
    var r3 := SetParameter(r2, c);
    var r4 := SetParameter(r3, d);
    var r5 := SetParameter(r4, e);
    assert [a, b, c, d, e, f] + rest == [a] + ([b] + ([c] + ([d] + ([e] + ([f] + rest)))));
    SetTwo(r, a, [b] + ([c] + ([d] + ([e] + ([f] + rest)))));
    SetTwo(r1, b, [c] + ([d] + ([e] + ([f] + rest))));
    SetTwo(r2, c, [d] + ([e] + ([f] + rest)));
    SetTwo(r3, d, [e] + ([f] + rest));
    SetTwo(r4, e, [f] + rest);
    SetTwo(r5, f, rest);
  }

  lemma ParameterWithout(name: string, v: string, c: char, quoted: bool)
    requires c !in name && c !in v && c != '\"'
    ensures c !in name + Value(v, quoted)
  {
  }

  lemma ParametersWithout(r: Resource, sender: Address, c: char, quoted: bool)
    requires Renderable(r, sender) && (c == ',' || c == ';')
    ensures forall p :: p in Parameters(r, quoted) ==> c !in p
  {
    DecimalIsPlain(r.maximumSize);
    DecimalIsPlain(r.contentFormat);
    ParameterWithout("title=", r.title, c, quoted);
    ParameterWithout("rt=", r.resourceType, c, quoted);
    ParameterWithout("if=", r.interface, c, quoted);
    ParameterWithout("sz=", Signed(r.maximumSize), c, quoted);
    ParameterWithout("ct=", Decimal(r.contentFormat), c, quoted);
  }

  lemma LinkBack(r: Resource, sender: Address, quoted: bool)
    requires Renderable(r, sender)
    ensures ParseLink(sender, RenderLink(r, quoted)) == r && ',' !in RenderLink(r, quoted)
  {
    ParametersWithout(r, sender, ';', quoted);
    ParametersWithout(r, sender, ',', quoted);
    SplitJoin(';', Parameters(r, quoted));
    JoinMembers(';', Parameters(r, quoted), ',');
    ParametersBack(r, sender, quoted);
  }

  lemma {:induction false} LinksBack(resources: seq<Resource>, sender: Address, quoted: bool)
    requires forall r :: r in resources ==> Renderable(r, sender)
    ensures ParseLinks(sender, Rendered(resources, quoted)) == resources
    ensures forall p :: p in Rendered(resources, quoted) ==> ',' !in p
  {
    if resources != [] {
      var r := resources[0];
      assert r in resources;
      LinkBack(r, sender, quoted);
      LinksBack(resources[1..], sender, quoted);
      assert ([RenderLink(r, quoted)] + Rendered(resources[1..], quoted))[1..] == Rendered(resources[1..], quoted);
      assert resources == [r] + resources[1..];
    }
  }

  /** Parsing a rendering of resources gives the resources back, whether their values are in quotes or not. */
  lemma RenderParse(resources: seq<Resource>, sender: Address, quoted: bool)
    requires forall r :: r in resources ==> Renderable(r, sender)
    ensures Parse(sender, Render(resources, quoted)) == resources
  {
    if resources == [] {
      NothingParsed(sender);
    } else {
      LinksBack(resources, sender, quoted);
      SplitJoin(',', Rendered(resources, quoted));
    }
  }

  lemma NothingParsed(sender: Address)
    ensures Parse(sender, "") == []
  {
    assert Split("", ',') == [""] && Split("", ';') == [""];
    assert [""][1..] == [];
    assert SetParameter(Unnamed(sender), "") == Unnamed(sender);
    assert SetParameters(Unnamed(sender), [""]) == SetParameters(SetParameter(Unnamed(sender), ""), []);
    assert ParseLink(sender, "") == Unnamed(sender);
    assert ParseLinks(sender, [""]) == [] + ParseLinks(sender, [""][1..]);
  }

  // Every link

  /** Quotes in a value make no difference, wherever they stand. */
  lemma QuotesMakeNoDifference(r: Resource, name: string, a: string, b: string)
    requires name in {"title=", "rt=", "if=", "sz=", "ct="}
    ensures SetParameter(r, name + (a + "\"" + b)) == SetParameter(r, name + (a + b))
  {
    QuoteGoes(a, b);
    TextSet(r, a + "\"" + b);
    TextSet(r, a + b);
    SizeSet(r, a + "\"" + b);
    SizeSet(r, a + b);
    FormatSet(r, a + "\"" + b);
    FormatSet(r, a + b);
  }

  /** What stands behind the name, if the parameter begins with it. */
  function Behind(p: string, name: string): Option<string> {
    if name <= p then Some(p[|name|..]) else None
  }

  /** What parameters say about each field. */
  datatype Said = Said(path: Option<string>, title: Option<string>, resourceType: Option<string>,
                       interface: Option<string>, size: Option<string>, format: Option<string>, observable: bool)

  function SaidBy(p: string): Said {
    Said(Behind(p, "<"), Behind(p, "title="), Behind(p, "rt="), Behind(p, "if="), Behind(p, "sz="), Behind(p, "ct="),
         p == "obs")
  }

  function Or<T>(a: Option<T>, b: Option<T>): Option<T> {
    if a.Some? then a else b
  }

  /** The last word on each field. */
  function LastSaid(parameters: seq<string>): Said {
    if parameters == [] then Said(None, None, None, None, None, None, false)
    else
      var before, last := LastSaid(parameters[..|parameters| - 1]), SaidBy(parameters[|parameters| - 1]);
      Said(Or(last.path, before.path), Or(last.title, before.title), Or(last.resourceType, before.resourceType),
           Or(last.interface, before.interface), Or(last.size, before.size), Or(last.format, before.format),
           last.observable || before.observable)
  }

  function TextOf(rest: Option<string>): string {
    if rest.None? then "" else WithoutQuotes(rest.value)
  }

  /** What stands behind the opening bracket, without the last character. */
  function PathOf(rest: Option<string>): string {
    if rest.None? || rest.value == "" then "" else rest.value[..|rest.value| - 1]
  }

  /** A resource of that host with what is said; a field of which nothing is said has its initial value. */
  predicate Shows(r: Resource, host: Address, said: Said) {
    && r.host == host && r.path == PathOf(said.path) && r.title == TextOf(said.title)
    && r.resourceType == TextOf(said.resourceType) && r.interface == TextOf(said.interface)
    && r.maximumSize == (if said.size.None? then -1 else ToInt(TextOf(said.size)))
    && r.contentFormat == (if said.format.None? then 0 else ToUInt(TextOf(said.format)))
    && r.observable == said.observable
  }

  lemma {:induction false} SetLast(r: Resource, front: seq<string>, p: string)
    ensures SetParameters(r, front + [p]) == SetParameter(SetParameters(r, front), p)
    decreases |front|
  {
    if front == [] {
      assert ([] + [p])[1..] == [] && ([] + [p])[0] == p;
    } else {
      SetLast(SetParameter(r, front[0]), front[1..], p);
      assert (front + [p])[1..] == front[1..] + [p] && (front + [p])[0] == front[0];
    }
  }

  /** The fields of a link are those of its last parameters, whatever stands between them. */
  lemma {:induction false} FieldsAreTheLast(sender: Address, parameters: seq<string>)
    ensures Shows(SetParameters(Unnamed(sender), parameters), sender, LastSaid(parameters))
  {
    if parameters != [] {
      var front, p := parameters[..|parameters| - 1], parameters[|parameters| - 1];
      var r := SetParameters(Unnamed(sender), front);
      assert parameters == front + [p];
      FieldsAreTheLast(sender, front);
      SetLast(Unnamed(sender), front, p);
      ParameterSets(r, p);
      ShowsMore(r, SetParameter(r, p), sender, LastSaid(front), SaidBy(p));
    }
  }

  lemma FirstLetters(p: string)
    ensures "<" <= p ==> p[0] == '<'
    ensures "title=" <= p ==> p[0] == 't'
    ensures "rt=" <= p ==> p[0] == 'r'
    ensures "if=" <= p ==> p[0] == 'i'
    ensures "sz=" <= p ==> p[0] == 's'
    ensures "ct=" <= p ==> p[0] == 'c'
    ensures p == "obs" ==> p[0] == 'o'
  {
  }

  /** What is said about a field changes it, and nothing else does. */
  predicate Sets(r: Resource, r': Resource, said: Said) {
    && r'.host == r.host
    && r'.path == (if said.path.Some? then PathOf(said.path) else r.path)
    && r'.title == (if said.title.Some? then TextOf(said.title) else r.title)
    && r'.resourceType == (if said.resourceType.Some? then TextOf(said.resourceType) else r.resourceType)
    && r'.interface == (if said.interface.Some? then TextOf(said.interface) else r.interface)
    && r'.maximumSize == (if said.size.Some? then ToInt(TextOf(said.size)) else r.maximumSize)
    && r'.contentFormat == (if said.format.Some? then ToUInt(TextOf(said.format)) else r.contentFormat)
    && r'.observable == (r.observable || said.observable)
  }

  lemma ParameterSets(r: Resource, p: string)
    ensures Sets(r, SetParameter(r, p), SaidBy(p))
  {
    FirstLetters(p);
    if "<" <= p && |p| >= 2 {
      assert p[1..][..|p[1..]| - 1] == p[1..|p| - 1];
    }
  }

  lemma ShowsMore(r: Resource, r': Resource, host: Address, before: Said, last: Said)
    requires Shows(r, host, before) && Sets(r, r', last)
    ensures Shows(r', host, Said(Or(last.path, before.path), Or(last.title, before.title),
                                 Or(last.resourceType, before.resourceType), Or(last.interface, before.interface),
                                 Or(last.size, before.size), Or(last.format, before.format),
                                 last.observable || before.observable))
  {
  }

  lemma {:induction false} NoQuotesLeft(s: string)
    ensures '\"' !in WithoutQuotes(s)
  {
    if s != "" {
      NoQuotesLeft(s[1..]);
    }
  }

  /** Whatever the payload: every resource has the sender as its host and a path, no quote is left in its title,
      type or interface, and its numbers are 32-bit numbers. */
  predicate WellFormed(r: Resource, sender: Address) {
    && r.host == sender && r.path != ""
    && '\"' !in r.title && '\"' !in r.resourceType && '\"' !in r.interface
    && -0x8000_0000 <= r.maximumSize < 0x8000_0000 && r.contentFormat < 0x1_0000_0000
  }

  lemma LinkIsWellFormed(sender: Address, link: string)
    ensures ParseLink(sender, link).path != "" ==> WellFormed(ParseLink(sender, link), sender)
  {
    var parameters := Split(link, ';');
    FieldsAreTheLast(sender, parameters);
    TextHasNoQuotes(LastSaid(parameters).title);
    TextHasNoQuotes(LastSaid(parameters).resourceType);
    TextHasNoQuotes(LastSaid(parameters).interface);
  }

  lemma TextHasNoQuotes(rest: Option<string>)
    ensures '\"' !in TextOf(rest)
  {
    if rest.Some? {
      NoQuotesLeft(rest.value);
    }
  }

  lemma {:induction false} LinksAreWellFormed(sender: Address, links: seq<string>)
    ensures forall r :: r in ParseLinks(sender, links) ==> WellFormed(r, sender)
  {
    if links != [] {
      LinkIsWellFormed(sender, links[0]);
      LinksAreWellFormed(sender, links[1..]);
    }
  }

  lemma ParsedIsWellFormed(sender: Address, data: string)
    ensures forall r :: r in Parse(sender, data) ==> WellFormed(r, sender)
  {
    LinksAreWellFormed(sender, Split(data, ','));
  }

  // Every number

  predicate AllSpace(s: string) {
    forall c :: c in s ==> IsSpace(c)
  }

  lemma {:induction false} TrimmedInside(before: string, s: string, after: string)
    requires AllSpace(before) && AllSpace(after) && s != "" && !IsSpace(s[0]) && !IsSpace(s[|s| - 1])
    ensures Trimmed(before + s + after) == s
    decreases |before| + |after|
  {
    var all := before + s + after;
    if before != "" {
      assert all[1..] == before[1..] + s + after;
      TrimmedInside(before[1..], s, after);
    } else if after != "" {
      assert all[..|all| - 1] == before + s + after[..|after| - 1];
      TrimmedInside(before, s, after[..|after| - 1]);
    } else {
      assert all == s;
    }
  }

  function InRange(n: int, low: int, high: int): int {
    if low <= n < high then n else 0
  }

  function Sign(plus: bool): string {
    if plus then "+" else ""
  }

  lemma SignedDecimal(plus: bool, n: nat)
    ensures var s := Sign(plus) + Decimal(n);
            && (if plus then s[0] == '+' && s[1..] == Decimal(n) else s == Decimal(n))
            && !IsSpace(s[0]) && !IsSpace(s[|s| - 1]) && Decimal(n)[0] != '+' && Decimal(n)[0] != '-'
  {
    var digits, s := Decimal(n), Sign(plus) + Decimal(n);
    assert digits[0] in digits && digits[|digits| - 1] in digits && s[|s| - 1] == digits[|digits| - 1];
  }

  lemma IntOfDigits(text: string, s: string)
    requires Trimmed(text) == s && IsDigits(s)
    ensures ToInt(text) == InRange(Number(s), -0x8000_0000, 0x8000_0000)
  {
    assert s[0] in s;
  }

  lemma IntOfPlus(text: string, s: string)
    requires Trimmed(text) == s && s != "" && s[0] == '+' && IsDigits(s[1..])
    ensures ToInt(text) == InRange(Number(s[1..]), -0x8000_0000, 0x8000_0000)
  {
  }

  lemma IntBack(text: string, plus: bool, n: nat)
    requires Trimmed(text) == Sign(plus) + Decimal(n)
    ensures ToInt(text) == InRange(n, -0x8000_0000, 0x8000_0000)
  {
    NumberOfDecimal(n);
    SignedDecimal(plus, n);
    if plus {
      IntOfPlus(text, Trimmed(text));
    } else {
      IntOfDigits(text, Trimmed(text));
    }
  }

  lemma UIntOfDigits(text: string, s: string)
    requires Trimmed(text) == s && IsDigits(s)
    ensures ToUInt(text) == InRange(Number(s), 0, 0x1_0000_0000)
  {
    assert s[0] in s;
  }

  lemma UIntOfPlus(text: string, s: string)
    requires Trimmed(text) == s && s != "" && s[0] == '+' && IsDigits(s[1..])
    ensures ToUInt(text) == InRange(Number(s[1..]), 0, 0x1_0000_0000)
  {
  }

  lemma UIntBack(text: string, plus: bool, n: nat)
    requires Trimmed(text) == Sign(plus) + Decimal(n)
    ensures ToUInt(text) == InRange(n, 0, 0x1_0000_0000)
  {
    NumberOfDecimal(n);
    SignedDecimal(plus, n);
    if plus {
      UIntOfPlus(text, Trimmed(text));
    } else {
      UIntOfDigits(text, Trimmed(text));
    }
  }

  /** A decimal number with any white space around it, with or without a plus sign: itself in range, 0 out of
      range. */
  lemma PaddedUnsigned(before: string, plus: bool, n: nat, after: string)
    requires AllSpace(before) && AllSpace(after)
    ensures var text := before + (Sign(plus) + Decimal(n)) + after;
            ToInt(text) == InRange(n, -0x8000_0000, 0x8000_0000) && ToUInt(text) == InRange(n, 0, 0x1_0000_0000)
  {
    var text := before + (Sign(plus) + Decimal(n)) + after;
    SignedDecimal(plus, n);
    TrimmedInside(before, Sign(plus) + Decimal(n), after);
    IntBack(text, plus, n);
    UIntBack(text, plus, n);
  }

  lemma PaddedNegative(before: string, n: nat, after: string)
    requires AllSpace(before) && AllSpace(after)
    ensures var text := before + ("-" + Decimal(n)) + after;
            ToInt(text) == InRange(0 - n, -0x8000_0000, 0x8000_0000) && ToUInt(text) == 0
  {
    var s := "-" + Decimal(n);
    NumberOfDecimal(n);
    assert Decimal(n)[|Decimal(n)| - 1] in Decimal(n);
    assert s[|s| - 1] == Decimal(n)[|Decimal(n)| - 1] && s[1..] == Decimal(n) && s[0] in s;
    TrimmedInside(before, s, after);
  }

  lemma {:induction false} TrimmedKeeps(s: string, c: char)
    requires c in s && !IsSpace(c)
    ensures c in Trimmed(s)
    decreases |s|
  {
    if IsSpace(s[0]) {
      assert s == [s[0]] + s[1..];
      TrimmedKeeps(s[1..], c);
    } else if IsSpace(s[|s| - 1]) {
      assert s == s[..|s| - 1] + [s[|s| - 1]];
      TrimmedKeeps(s[..|s| - 1], c);
    }
  }

  /** Any other character makes the number 0. */
  lemma StrangeIsZero(text: string, c: char)
    requires c in text && !IsSpace(c) && !('0' <= c <= '9') && c != '+' && c != '-'
    ensures ToInt(text) == 0 && ToUInt(text) == 0
  {
    TrimmedKeeps(text, c);
    var s := Trimmed(text);
    assert s == [s[0]] + s[1..];
    assert s[0] in {'+', '-'} ==> c in s[1..];
  }

  // What a discovery reply shows

  /** One list for each content that is no error. */
  function Lists(sender: Address, contents: seq<Content>): seq<seq<Resource>> {
    if contents == [] then []
    else
      var last := contents[|contents| - 1];
      Lists(sender, contents[..|contents| - 1])
      + if IsError(last.code) then [] else [Parse(sender, Text(last.message.payload))]
  }

  /** The error of the last content that is one. */
  function LastError(contents: seq<Content>): Option<Error> {
    if contents == [] then None
    else
      var last := contents[|contents| - 1];
      if IsError(last.code) then Some(ErrorForResponseCode(last.code)) else LastError(contents[..|contents| - 1])
  }

  lemma DiscoveredStep(d: Discovery, sender: Address, c: Content)
    ensures var d' := Discovered(d, sender, c.message, c.code);
            && (d.finished ==> d' == d)
            && (!d.finished ==>
                  && !d'.finished && d'.message == c.message && d'.code == c.code
                  && d'.error == (if IsError(c.code) then ErrorForResponseCode(c.code) else d.error)
                  && d'.discovered
                     == d.discovered + if IsError(c.code) then [] else [Parse(sender, Text(c.message.payload))])
  {
    assert d.discovered + [] == d.discovered;
  }

  /** Over any contents: while it is not finished a discovery reply has message and code of the last one, has
      reported one list for each that is no error, and has the error of the last that is one; once it is
      finished nothing changes. */
  lemma {:induction false} DiscoveryIsTheLast(d: Discovery, sender: Address, contents: seq<Content>)
    ensures var all := DiscoveredAll(d, sender, contents);
            && all.finished == d.finished && (d.finished ==> all == d)
            && (!d.finished ==>
                  && (contents != [] ==>
                        && all.message == contents[|contents| - 1].message
                        && all.code == contents[|contents| - 1].code)
                  && all.discovered == d.discovered + Lists(sender, contents)
                  && all.error == if LastError(contents).Some? then LastError(contents).value else d.error)
  {
    if contents == [] {
      assert d.discovered + [] == d.discovered;
    } else {
      var front, last := contents[..|contents| - 1], contents[|contents| - 1];
      DiscoveryIsTheLast(d, sender, front);
      DiscoveredStep(DiscoveredAll(d, sender, front), sender, last);
    }
  }
}
