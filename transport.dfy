/** Start-up configuration (the `__main__` block): which transport the server
    runs and, for streamable HTTP, where it listens. The environment is a map
    from variable names to values; reading it is outside the model. */
module Transport {
  import opened Wrappers

  datatype ServerConfig =
    | Stdio
    | StreamableHttp(host: string, port: int, path: string)

  /** `int(os.getenv("MCP_PORT", ...))` raised `ValueError`. */
  datatype ConfigError = InvalidPort(text: string)

  const HttpFlagVar: string := "MCP_HTTP"
  const HostVar: string := "MCP_HOST"
  const PortVar: string := "MCP_PORT"
  const PathVar: string := "MCP_PATH"

  const DefaultHttpFlag: string := "0"
  const DefaultHost: string := "127.0.0.1"
  const DefaultPort: string := "8974"
  const DefaultPath: string := "/mcp"

  /** The lower-cased values of `MCP_HTTP` that select streamable HTTP. */
  const HttpFlagValues: set<string> := {"1", "true", "yes"}

  /** The transport name handed to `mcp.run`. */
  function TransportName(config: ServerConfig): string {
    if config.Stdio? then "stdio" else "streamable-http"
  }

  /** `os.getenv(key, default)`. */
  function Getenv(env: map<string, string>, key: string, default: string): string {
    if key in env then env[key] else default
  }

  // ---------------------------------------------------------------------------
  // `str.lower()` on ASCII letters

  function LowerChar(c: char): char {
    if 'A' <= c <= 'Z' then (c as int - 'A' as int + 'a' as int) as char else c
  }

  function Lower(s: string): (r: string)
    ensures |r| == |s|
    ensures forall i :: 0 <= i < |s| ==> r[i] == LowerChar(s[i])
    ensures forall i :: 0 <= i < |r| ==> !('A' <= r[i] <= 'Z')
  {
    if s == [] then [] else [LowerChar(s[0])] + Lower(s[1..])
  }

  /** Equal up to the case of ASCII letters. */
  ghost predicate SameIgnoringCase(a: string, b: string) {
    |a| == |b| && forall i :: 0 <= i < |a| ==> LowerChar(a[i]) == LowerChar(b[i])
  }

  lemma LowerMatchesLowercaseWord(s: string, word: string)
    requires Lower(word) == word
    ensures Lower(s) == word <==> SameIgnoringCase(s, word)
  {
  }

  /** The test `os.getenv("MCP_HTTP", "0").lower() in {"1", "true", "yes"}`. */
  predicate HttpSelected(env: map<string, string>)
    ensures HttpSelected(env) ==> HttpFlagVar in env
  {
    assert Lower(DefaultHttpFlag) == DefaultHttpFlag;
    Lower(Getenv(env, HttpFlagVar, DefaultHttpFlag)) in HttpFlagValues
  }

  /** Streamable HTTP is chosen exactly when `MCP_HTTP` is set to "1", "true" or
      "yes" in any mix of cases; an unset variable means stdio. */
  lemma HttpSelectedExactly(env: map<string, string>)
    ensures HttpSelected(env) <==>
      HttpFlagVar in env &&
      (SameIgnoringCase(env[HttpFlagVar], "1") ||
       SameIgnoringCase(env[HttpFlagVar], "true") ||
       SameIgnoringCase(env[HttpFlagVar], "yes"))
  {
    var v := Getenv(env, HttpFlagVar, DefaultHttpFlag);
    FlagWordsAreLowercase();
    assert HttpSelected(env) <==> Lower(v) == "1" || Lower(v) == "true" || Lower(v) == "yes";
    if HttpFlagVar in env {
      LowerMatchesLowercaseWord(v, "1");
      LowerMatchesLowercaseWord(v, "true");
      LowerMatchesLowercaseWord(v, "yes");
    } else {
      assert Lower(v) == "0";
    }
  }

  lemma FlagWordsAreLowercase()
    ensures Lower("1") == "1" && Lower("true") == "true" && Lower("yes") == "yes"
    ensures Lower(DefaultHttpFlag) == DefaultHttpFlag
  {
  }

  // ---------------------------------------------------------------------------
  // `int(...)` on an optional sign followed by ASCII digits

  predicate IsDigit(c: char) {
    '0' <= c <= '9'
  }

  predicate AllDigits(s: string) {
    |s| > 0 && forall i :: 0 <= i < |s| ==> IsDigit(s[i])
  }

  /** The number a string of decimal digits spells. */
  function DigitsValue(s: string): nat
    requires forall i :: 0 <= i < |s| ==> IsDigit(s[i])
  {
    if s == [] then 0
    else
      assert IsDigit(s[|s| - 1]);
      10 * DigitsValue(s[..|s| - 1]) + (s[|s| - 1] as int - '0' as int)
  }

  function ParseInt(s: string): (r: Option<int>)
    ensures r.Some? <==> AllDigits(s) || (|s| > 1 && (s[0] == '+' || s[0] == '-') && AllDigits(s[1..]))
    ensures r.Some? && AllDigits(s) ==> r.value >= 0
    ensures r.Some? && s[0] == '-' ==> r.value <= 0
  {
    if AllDigits(s) then Some(DigitsValue(s))
    else if |s| > 1 && s[0] == '-' && AllDigits(s[1..]) then Some(0 - DigitsValue(s[1..]) as int)
    else if |s| > 1 && s[0] == '+' && AllDigits(s[1..]) then Some(DigitsValue(s[1..]))
    else None
  }

  /** The usual decimal spelling of a natural number. */
  function DecimalString(n: nat): (s: string)
    ensures AllDigits(s)
  {
    if n < 10 then [('0' as int + n) as char]
    else DecimalString(n / 10) + [('0' as int + n % 10) as char]
  }

  /** Parsing reads back the number that was spelled. */
  lemma {:induction false} ParseDecimalString(n: nat)
    ensures DigitsValue(DecimalString(n)) == n
    ensures ParseInt(DecimalString(n)) == Some(n)
  {
    var s := DecimalString(n);
    if n >= 10 {
      ParseDecimalString(n / 10);
      assert s[..|s| - 1] == DecimalString(n / 10);
    }
  }

  /** A leading zero does not change the value of a digit string. */
  lemma {:induction false} LeadingZeroDigits(s: string)
    requires forall i :: 0 <= i < |s| ==> IsDigit(s[i])
    ensures DigitsValue(['0'] + s) == DigitsValue(s)
  {
    if s != [] {
      var t := ['0'] + s;
      assert t[..|t| - 1] == ['0'] + s[..|s| - 1];
      LeadingZeroDigits(s[..|s| - 1]);
    }
  }

  /** Leading zeros and a `+` sign leave the value alone and a `-` sign negates
      it, as with `int()`; with `ParseDecimalString` this fixes the value of
      every accepted text ("0080" and "+80" are 80, "-1" is -1). */
  lemma ParseIntSignsAndZeros(s: string)
    requires AllDigits(s)
    ensures ParseInt(s) == Some(DigitsValue(s) as int)
    ensures ParseInt(['0'] + s) == ParseInt(s)
    ensures ParseInt(['+'] + s) == ParseInt(s)
    ensures ParseInt(['-'] + s) == Some(-ParseInt(s).value)
  {
    LeadingZeroDigits(s);
    assert (['+'] + s)[1..] == s && (['-'] + s)[1..] == s;
    assert AllDigits(['0'] + s) by {
      assert forall i :: 1 <= i < |s| + 1 ==> (['0'] + s)[i] == s[i - 1];
    }
  }

  /** The port a server started without `MCP_PORT` listens on. */
  lemma DefaultPortIs8974()
    ensures ParseInt(DefaultPort) == Some(8974)
  {
    ParseDecimalString(8974);
    assert DecimalString(8974) == DefaultPort by {
      assert DecimalString(8) == "8";
      assert DecimalString(89) == "89";
      assert DecimalString(897) == "897";
    }
  }

  /** The configuration `__main__` hands to the server. Host, port and path are
      read only when HTTP is selected, so a malformed `MCP_PORT` matters only then. */
  function Configure(env: map<string, string>): (r: Result<ServerConfig, ConfigError>)
    ensures !HttpSelected(env) ==> r == Ok(Stdio)
    ensures HttpSelected(env) ==>
      var portText := Getenv(env, PortVar, DefaultPort);
      (r.Err? <==> ParseInt(portText).None?) &&
      (r.Err? ==> r.error == InvalidPort(portText))
    ensures r.Ok? && r.value.StreamableHttp? ==>
      && HttpSelected(env)
      && r.value.host == Getenv(env, HostVar, DefaultHost)
      && Some(r.value.port) == ParseInt(Getenv(env, PortVar, DefaultPort))
      && r.value.path == Getenv(env, PathVar, DefaultPath)
    ensures r.Ok? ==> (TransportName(r.value) == "streamable-http" <==> HttpSelected(env))
  {
    if !HttpSelected(env) then
      Ok(Stdio)
    else
      var portText := Getenv(env, PortVar, DefaultPort);
      match ParseInt(portText)
      case None => Err(InvalidPort(portText))
      case Some(port) =>
        Ok(StreamableHttp(Getenv(env, HostVar, DefaultHost), port, Getenv(env, PathVar, DefaultPath)))
  }

  /** With no configuration beyond `MCP_HTTP`, HTTP serves on 127.0.0.1:8974 at /mcp. */
  lemma HttpDefaults(flag: string)
    requires Lower(flag) in HttpFlagValues
    ensures Configure(map[HttpFlagVar := flag]) == Ok(StreamableHttp("127.0.0.1", 8974, "/mcp"))
  {
    DefaultPortIs8974();
  }

  /** An empty environment runs the server over stdio. */
  lemma StdioByDefault()
    ensures Configure(map[]) == Ok(Stdio)
  {
    FlagWordsAreLowercase();
  }
}
