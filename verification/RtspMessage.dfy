/** RTSPMessage as an object: parse updates its fields line by line, create_response walks its
    header map. */
module RtspMessages {
  import opened Rtsp

  class RtspMessage {
    var protocol: string
    var verb: Method
    var uri: string
    var cseq: nat
    var status: nat
    var body: string
    var headers: map<string, string>

    function State(): Message
      reads this
    {
      Message(protocol, verb, uri, cseq, status, body, headers)
    }

    constructor ()
      ensures State() == FRESH
      ensures protocol == "RTSP/1.0" && verb == UNKNOWN && uri == "" && cseq == 0 && status == 0
      ensures body == "" && headers == map[]
    {
      protocol, verb, uri, cseq, status := "RTSP/1.0", UNKNOWN, "", 0, UNSET;
      body, headers := "", map[];
    }

    // The fields keep what was read before an exception.
    method Parse(data: string) returns (r: Outcome)
      modifies this
      ensures (State(), r) == Rtsp.Parse(data, old(State()))
    {
      if data == "" { return NoData; }
      hide Word, GetLine, ParseMethod, RemoveCr;
      var (first, rest) := GetLine(data);
      var (verbText, t1) := Word(first);
      var (uriText, t2) := Word(t1);
      var (protocolText, _) := Word(t2);
      if uriText != "" { uri := uriText; }
      if protocolText != "" { protocol := protocolText; }
      verb := ParseMethod(verbText);
      ghost var m := State();
      assert m == ParseRequestLine(first, old(State()));
      ghost var all := rest;
      while rest != ""
        invariant ParseHeaders(rest, State()) == ParseHeaders(all, m)
        decreases |rest|
      {
        ghost var s := State();
        var (raw, after) := GetLine(rest);
        var line := RemoveCr(raw);
        if line == "" { return Parsed; }
        var name, value := HeaderName(line), HeaderValue(line);
        if value == "" { return Threw; }
        if name == "CSeq" {
          match Stoi(value) {
            case None => return Threw;
            case Some(n) => cseq := Unsigned(n);
          }
        } else {
          headers := headers[name := value];
        }
        assert (State(), Parsed) == ParseLine(line, s);
        rest := after;
      }
      return Parsed;
    }

    method CreateResponse() returns (text: string)
      ensures exists order :: IsOrder(order, headers) && text == Print(State(), order)
    {
      hide StartLine;
      text := StartLine(State()) + "\r\n";
      ghost var start := text;
      ghost var order: seq<string> := [];
      var left := headers.Keys;
      while left != {}
        invariant left <= headers.Keys
        invariant forall k :: k in order <==> k in headers && k !in left
        invariant forall i, j :: 0 <= i < j < |order| ==> order[i] != order[j]
        invariant text == start + HeaderText(Pairs(order, headers))
      {
        var k :| k in left;
        text := text + (k + ": " + headers[k] + "\r\n");
        left := left - {k};
        HeaderTextGrows(Pairs(order, headers), (k, headers[k]));
        assert Pairs(order + [k], headers) == Pairs(order, headers) + [(k, headers[k])];
        order := order + [k];
      }
      text := text + "\r\n";
      if body != "" { text := text + body; }
      assert text == Print(State(), order);
    }
  }

  lemma {:induction false} HeaderTextGrows(pairs: seq<(string, string)>, p: (string, string))
    ensures HeaderText(pairs + [p]) == HeaderText(pairs) + (p.0 + ": " + p.1 + "\r\n")
  {
    if pairs == [] {
      assert pairs + [p] == [p] && [p][1..] == [];
    } else {
      assert (pairs + [p])[1..] == pairs[1..] + [p];
      HeaderTextGrows(pairs[1..], p);
    }
  }
}
