/** electron/pktParser/parserRegistry.js: the table of packet parsers,
  * keyed by layer name and protocol type, the table from application
  * ports to layer names, and the recursive parse that hands each layer's
  * payload to the parser of the next layer. */
module ParserRegistry {
  import opened Base

  /** A registered parser function, known by its name; what calling it does
    * is given to Parse as `run`. */
  datatype Parser = Parser(name: string)

  /** A parser's `payload`: JavaScript reads a `type` of 0 and an empty
    * `nextLayer` as false. */
  datatype Payload = Payload(payloadType: int, nextLayer: string, offset: int)

  /** The object a parser returns. */
  datatype ParserResult = ParserResult(valid: bool, payload: Option<Payload>)

  /** The result of parse: the first parser's own result when every parser
    * in the chain accepted, or why the chain stopped. */
  datatype ParseResult =
    | Parsed(result: ParserResult)
    | NoParser(layer: string, parserType: int)
    | Rejected(result: ParserResult)
    | ParserThrew(layer: string)
    | TooDeep

  /** The registry's two maps. */
  datatype Tables = Tables(parsers: map<string, map<int, Parser>>, protocolPorts: map<int, string>)

  // ---------------------------------------------------------------------
  // Registering and looking up
  // ---------------------------------------------------------------------

  /** getParser: the parser registered for a layer and type, if any. */
  function GetParser(t: Tables, layer: string, parserType: int): (r: Option<Parser>)
    ensures r.None? <==> layer !in t.parsers || parserType !in t.parsers[layer]
  {
    if layer !in t.parsers || parserType !in t.parsers[layer] then None
    else Some(t.parsers[layer][parserType])
  }

  /** getProtocolByPort: `get(port) || null` also answers null for a port
    * mapped to the empty layer name. */
  function GetProtocolByPort(t: Tables, port: int): (r: Option<string>)
    ensures r.Some? <==> HasProtocolForPort(t, port) && t.protocolPorts[port] != ""
    ensures r.Some? ==> r.value == t.protocolPorts[port]
  {
    if port in t.protocolPorts && t.protocolPorts[port] != "" then Some(t.protocolPorts[port]) else None
  }

  predicate HasProtocolForPort(t: Tables, port: int)
  {
    port in t.protocolPorts
  }

  /** registerParser: the layer's map is created when missing, the parser
    * is stored under the type, and an application protocol also maps the
    * type, used as a port, to the layer. */
  function Register(t: Tables, layer: string, parserType: int, parser: Parser, isProtocol: bool): Tables
  {
    var layerParsers := if layer in t.parsers then t.parsers[layer] else map[];
    Tables(t.parsers[layer := layerParsers[parserType := parser]],
           if isProtocol then t.protocolPorts[parserType := layer] else t.protocolPorts)
  }

  /** After registering, getParser finds the parser, every other entry is
    * as it was, and the port map changes only for an application protocol. */
  lemma RegisterThenGet(t: Tables, layer: string, parserType: int, parser: Parser, isProtocol: bool)
    ensures var r := Register(t, layer, parserType, parser, isProtocol);
            GetParser(r, layer, parserType) == Some(parser) &&
            (forall l, k :: (l != layer || k != parserType) ==> GetParser(r, l, k) == GetParser(t, l, k)) &&
            (isProtocol ==> r.protocolPorts == t.protocolPorts[parserType := layer]) &&
            (!isProtocol ==> r.protocolPorts == t.protocolPorts)
  {
    var r := Register(t, layer, parserType, parser, isProtocol);
    forall l, k | l != layer || k != parserType
      ensures GetParser(r, l, k) == GetParser(t, l, k)
    {
      if l == layer {
        assert k != parserType;
      }
    }
  }

  /** unregisterParser: with a port, that one parser goes, and the port's
    * mapping goes only when it names this layer; without one, the whole
    * layer goes with every port mapped to it. */
  function Unregister(t: Tables, layer: string, port: Option<int>): Tables
  {
    match port
    case Some(p) =>
      var ports := if p in t.protocolPorts && t.protocolPorts[p] == layer then t.protocolPorts - {p}
                   else t.protocolPorts;
      if layer in t.parsers then Tables(t.parsers[layer := t.parsers[layer] - {p}], ports)
      else Tables(t.parsers, ports)
    case None =>
      Tables(t.parsers - {layer}, PortsNotOn(t.protocolPorts, layer))
  }

  /** The port map without the ports mapped to one layer. */
  function PortsNotOn(ports: map<int, string>, layer: string): map<int, string>
  {
    map p | p in ports && ports[p] != layer :: ports[p]
  }

  lemma UnregisterPort(t: Tables, layer: string, port: int)
    ensures var r := Unregister(t, layer, Some(port));
            GetParser(r, layer, port) == None &&
            (forall l, k :: (l != layer || k != port) ==> GetParser(r, l, k) == GetParser(t, l, k)) &&
            (port in t.protocolPorts && t.protocolPorts[port] == layer ==> r.protocolPorts == t.protocolPorts - {port}) &&
            (port !in t.protocolPorts || t.protocolPorts[port] != layer ==> r.protocolPorts == t.protocolPorts)
  {
    var r := Unregister(t, layer, Some(port));
    forall l, k | l != layer || k != port
      ensures GetParser(r, l, k) == GetParser(t, l, k)
    {
      if l == layer && layer in t.parsers {
        assert k != port;
        assert r.parsers[l] == t.parsers[l] - {port};
      }
    }
  }

  lemma UnregisterLayer(t: Tables, layer: string)
    ensures var r := Unregister(t, layer, None);
            (forall k :: GetParser(r, layer, k) == None) &&
            (forall l, k :: l != layer ==> GetParser(r, l, k) == GetParser(t, l, k)) &&
            (forall p :: p in r.protocolPorts <==> p in t.protocolPorts && t.protocolPorts[p] != layer) &&
            (forall p :: p in r.protocolPorts ==> r.protocolPorts[p] == t.protocolPorts[p])
  {
  }

  // ---------------------------------------------------------------------
  // Parsing
  // ---------------------------------------------------------------------

  /** The payload names a next layer: both its type and its layer are
    * truthy. */
  predicate Continues(r: ParserResult)
  {
    r.payload.Some? && r.payload.value.payloadType != 0 && r.payload.value.nextLayer != ""
  }

  /** parse: the parser of this layer and type is called; when it accepts
    * and its payload names a next layer, that layer is parsed from the
    * payload's offset. `depth` bounds the nesting, which the call stack
    * bounds in JavaScript. */
  function Parse(t: Tables, run: (Parser, int) -> Outcome<ParserResult>, layer: string, parserType: int,
                 offset: int, depth: nat): ParseResult
    decreases depth
  {
    match GetParser(t, layer, parserType)
    case None => NoParser(layer, parserType)
    case Some(parser) =>
      match run(parser, offset)
      case Threw => ParserThrew(layer)
      case Returned(result) =>
        if !result.valid then Rejected(result)
        else if !Continues(result) then Parsed(result)
        else if depth == 0 then TooDeep
        else
          var next := Parse(t, run, result.payload.value.nextLayer, result.payload.value.payloadType,
                            result.payload.value.offset, depth - 1);
          if next.Parsed? then Parsed(result) else next
  }

  /** With no parser for the layer and type, parse fails without calling
    * anything. */
  lemma ParseUnregistered(t: Tables, run: (Parser, int) -> Outcome<ParserResult>, layer: string, parserType: int,
                          offset: int, depth: nat)
    requires GetParser(t, layer, parserType).None?
    ensures Parse(t, run, layer, parserType, offset, depth) == NoParser(layer, parserType)
  {
  }

  /** parse goes on to the next layer only when the payload has both a type
    * and a next layer; otherwise an accepted result is returned as it is. */
  lemma ParseStopsWithoutNextLayer(t: Tables, run: (Parser, int) -> Outcome<ParserResult>, layer: string,
                                   parserType: int, offset: int, depth: nat)
    requires GetParser(t, layer, parserType).Some?
    requires var c := run(GetParser(t, layer, parserType).value, offset);
             c.Returned? && c.value.valid && !Continues(c.value)
    ensures Parse(t, run, layer, parserType, offset, depth)
         == Parsed(run(GetParser(t, layer, parserType).value, offset).value)
  {
  }

  /** A chain that parses returns the first parser's own result, and that
    * result is valid; the result of every later layer is dropped. */
  lemma {:induction false} ParsedIsFirstResult(t: Tables, run: (Parser, int) -> Outcome<ParserResult>, layer: string,
                                               parserType: int, offset: int, depth: nat)
    requires Parse(t, run, layer, parserType, offset, depth).Parsed?
    ensures GetParser(t, layer, parserType).Some?
    ensures var c := run(GetParser(t, layer, parserType).value, offset);
            c.Returned? && c.value.valid &&
            Parse(t, run, layer, parserType, offset, depth).result == c.value
  {
  }

  /** A failure names the layer where the chain stopped: a missing parser
    * is missing from the tables, and a rejection carries the invalid
    * result, however deep in the chain it happened. */
  lemma {:induction false} ParseFailureOrigin(t: Tables, run: (Parser, int) -> Outcome<ParserResult>,
                                              layer: string, parserType: int, offset: int, depth: nat)
    ensures var r := Parse(t, run, layer, parserType, offset, depth);
            (r.NoParser? ==> GetParser(t, r.layer, r.parserType).None?) &&
            (r.Rejected? ==> !r.result.valid)
    decreases depth
  {
    match GetParser(t, layer, parserType)
    case None =>
    case Some(parser) =>
      match run(parser, offset)
      case Threw =>
      case Returned(result) =>
        if result.valid && Continues(result) && depth > 0 {
          var p := result.payload.value;
          ParseFailureOrigin(t, run, p.nextLayer, p.payloadType, p.offset, depth - 1);
        }
  }

  /** parsePacket: the chain from the Ethernet layer with type 0; an error
    * status with the failure, or success. */
  function ParsePacket(t: Tables, run: (Parser, int) -> Outcome<ParserResult>, depth: nat): (r: ParseResult)
    ensures r.Parsed? ==> GetParser(t, "ethernet", 0).Some?
  {
    Parse(t, run, "ethernet", 0, 0, depth)
  }

  // ---------------------------------------------------------------------
  // The registry object
  // ---------------------------------------------------------------------

  class Registry {
    var parsers: map<string, map<int, Parser>>
    var protocolPorts: map<int, string>

    function Snapshot(): Tables
      reads this
    {
      Tables(parsers, protocolPorts)
    }

    constructor()
      ensures Snapshot() == Tables(map[], map[])
    {
      parsers := map[];
      protocolPorts := map[];
    }

    method RegisterParser(layer: string, parserType: int, parser: Parser, isProtocol: bool)
      modifies this
      ensures Snapshot() == Register(old(Snapshot()), layer, parserType, parser, isProtocol)
    {
      if layer !in parsers {
        parsers := parsers[layer := map[]];
      }
      parsers := parsers[layer := parsers[layer][parserType := parser]];
      if isProtocol {
        protocolPorts := protocolPorts[parserType := layer];
      }
    }

    /** unregisterParser; without a port, every entry of the port map that
      * names the layer is deleted. */
    method UnregisterParser(layer: string, port: Option<int>)
      modifies this
      ensures Snapshot() == Unregister(old(Snapshot()), layer, port)
    {
      if port.Some? {
        var p := port.value;
        if p in protocolPorts && protocolPorts[p] == layer {
          protocolPorts := protocolPorts - {p};
        }
        if layer in parsers {
          parsers := parsers[layer := parsers[layer] - {p}];
        }
      } else {
        if layer in parsers {
          parsers := parsers - {layer};
        }
        protocolPorts := PortsNotOn(protocolPorts, layer);
      }
    }
  }
}
