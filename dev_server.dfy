/** The development server of the `jsWebRun`, `jsWebRunNonBlocking` and `jsStopWeb` tasks:
    the one server handle the plugin keeps between builds of a Gradle daemon (`_webServer`),
    and the reload counter that is raised on every run. */
module DevServer {
  import opened Text

  /** `DecoratedHttpServer`: a running static file server and its `updateVersion` counter. */
  class ServerHandle {
    const port: nat       // the port the server listens on
    var version: int      // `updateVersion`
    var running: bool     // false once `server.stop(0)` has been called

    constructor (port: nat)
      ensures this.port == port && version == 0 && running
    {
      this.port := port;
      version := 0;
      running := true;
    }

    /** `updateVersion.incrementAndGet()` */
    method IncrementVersion() returns (v: int)
      modifies this
      ensures version == old(version) + 1 && v == version
      ensures running == old(running)
    {
      version := version + 1;
      v := version;
    }

    /** `server.stop(0)` */
    method Stop()
      modifies this
      ensures !running && version == old(version)
    {
      running := false;
    }
  }

  /** How a call of `runServer` ends. */
  datatype RunOutcome =
    | Reused(version: int)                        // a server was already there: only its counter moved
    | Opened(url: string, version: int)           // a new server now runs and the browser was sent to `url`
    | Interrupted(url: string, server: ServerHandle) // a blocking run whose wait was interrupted: the server is stopped
    | BindFailed                                  // `staticHttpServer` threw: nothing changed

  /** The address the browser is sent to: the wildcard bind address `0.0.0.0` is shown as
      the loopback address; any other address is used as it is. */
  function OpenAddress(address: string): (r: string)
    ensures r != "0.0.0.0"
    ensures address != "0.0.0.0" ==> r == address
  {
    if address == "0.0.0.0" then "127.0.0.1" else address
  }

  /** The decimal digits of `n`, as Kotlin's string template prints an `Int` that is not
      negative. */
  function DecimalText(n: nat): (r: string)
    ensures |r| >= 1 && forall k :: 0 <= k < |r| ==> '0' <= r[k] <= '9'
    ensures r[0] == '0' ==> n == 0
    decreases n
  {
    if n < 10 then [('0' as int + n) as char]
    else DecimalText(n / 10) + [('0' as int + n % 10) as char]
  }

  /** The value of a string of decimal digits. */
  function DecimalValue(s: string): nat
    requires forall k :: 0 <= k < |s| ==> '0' <= s[k] <= '9'
    decreases |s|
  {
    if s == [] then 0 else 10 * DecimalValue(s[..|s| - 1]) + (s[|s| - 1] as int - '0' as int)
  }

  /** Reading the printed port back gives the port. */
  lemma {:induction false} DecimalRoundTrip(n: nat)
    ensures DecimalValue(DecimalText(n)) == n
    decreases n
  {
    if n >= 10 {
      var r := DecimalText(n);
      assert r[..|r| - 1] == DecimalText(n / 10);
      DecimalRoundTrip(n / 10);
    }
  }

  /** `"http://$openAddress:${server.port}/index.html"` */
  function BrowserUrl(address: string, port: nat): (url: string)
    ensures StartsWith(url, "http://" + OpenAddress(address) + ":")
    ensures EndsWith(url, ":" + DecimalText(port) + "/index.html")
    ensures |url| == |"http://" + OpenAddress(address) + ":"| + |DecimalText(port) + "/index.html"|
  {
    var head := "http://" + OpenAddress(address) + ":";
    var tail := DecimalText(port) + "/index.html";
    assert (head + tail)[..|head|] == head;
    assert (head + tail)[|head + tail| - |":" + tail|..] == ":" + tail;
    head + tail
  }

  /** The module-level `_webServer` variable: no server, or the one server of this build
      daemon. */
  class WebServerSlot {
    var current: ServerHandle?

    /** The slot only ever holds a server that is running and whose counter was raised by
        the run that opened it. */
    ghost predicate Valid()
      reads this, current
    {
      current != null ==> current.running && current.version >= 1
    }

    constructor ()
      ensures current == null && Valid()
    {
      current := null;
    }

    /** The action of `jsStopWeb`: stop the server, if any, and forget it. */
    method StopWeb()
      modifies this, current
      ensures current == null && Valid()
      ensures old(current) != null ==> !old(current).running && old(current).version == old(current.version)
    {
      if current != null {
        current.Stop();
      }
      current := null;
    }

    /** `runServer(blocking)`. `bind` is what `staticHttpServer` does with the configured
        address and port: the port it listens on, or `None` when it throws. A blocking run
        waits until the build is interrupted; the `finally` block then stops the server and
        clears the slot, and the counter is not raised. */
    method RunServer(blocking: bool, address: string, bind: Option<nat>) returns (outcome: RunOutcome)
      requires Valid()
      modifies this, current
      ensures Valid()
      ensures old(current) != null ==>
                current == old(current) && current.version == old(current.version) + 1 &&
                outcome == Reused(current.version)
      ensures old(current) == null && bind.None? ==> current == null && outcome == BindFailed
      ensures old(current) == null && bind.Some? && !blocking ==>
                current != null && fresh(current) && current.port == bind.value && current.version == 1 &&
                outcome == Opened(BrowserUrl(address, bind.value), 1)
      ensures old(current) == null && bind.Some? && blocking ==>
                current == null && outcome.Interrupted? && fresh(outcome.server) && !outcome.server.running &&
                outcome.url == BrowserUrl(address, bind.value)
    {
      if current == null {
        if bind.None? {
          return BindFailed;
        }
        var server := new ServerHandle(bind.value);
        current := server;
        var url := BrowserUrl(address, server.port);
        if blocking {
          server.Stop();
          current := null;
          return Interrupted(url, server);
        }
        var v := server.IncrementVersion();
        return Opened(url, v);
      }
      var v := current.IncrementVersion();
      outcome := Reused(v);
    }
  }

  /** Continuous builds: the first non-blocking run opens a server, every later run only
      raises its counter, and stopping twice is harmless. */
  method ReloadScenario(address: string, port: nat) returns (first: RunOutcome, second: RunOutcome, third: RunOutcome, cleared: bool)
    ensures first == Opened(BrowserUrl(address, port), 1)
    ensures second == Reused(2) && third == Reused(3)
    ensures cleared
  {
    var slot := new WebServerSlot();
    first := slot.RunServer(false, address, Some(port));
    second := slot.RunServer(false, address, Some(port));
    third := slot.RunServer(true, address, Some(port));
    slot.StopWeb();
    slot.StopWeb();
    cleared := slot.current == null;
  }
}
