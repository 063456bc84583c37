/**
 * An IFP plugin: one interpreter engine loaded from a shared object.  The
 * plugin moves through a fixed life cycle,
 *
 *   Unloaded --load--> Attached --initialize--> Initialized --run--> Running
 *   Attached --initialize fails--> Finished,  Running --returns--> Finished,
 *   Attached, Finished --unload--> Unloaded,
 *
 * and every other transition is refused.  A library is described by the
 * header it exports and the names of the symbols `dlsym` finds in it; the
 * functions behind those symbols are not part of this model.
 */
module IfpPlugin {
  import opened Text

  const PluginMagic := 0x24ad_e36e
  /** What `memset (plugin, 0xaa, ...)` leaves in the magic field of a destroyed plugin. */
  const DestroyedMagic := 0xaaaa_aaaa
  const HeaderVersion := 0x300

  datatype State = Unloaded | Attached | Initialized | Running | Finished

  /** The header fields this model uses. */
  datatype Header = Header(version: int, engineType: string, engineName: string, engineVersion: string)

  /** What `dlopen` found: the `ifpi_header` data, if exported, and the symbols `dlsym` resolves. */
  datatype Library = Library(header: Option<Header>, symbols: set<string>)

  /**
   * What a successful load records: the header, which optional functions
   * exist, whether the plugin chains, and which symbol supplied the Glk
   * arguments, the startup code and the main function.
   */
  datatype Binding = Binding(header: Header, initializer: bool, finalizer: bool, chaining: bool,
                             arguments: string, startupCode: string, glkMain: string)

  const SetPluginSelf := "ifpi_chain_set_plugin_self"
  const ChainSymbols := {"ifpi_chain_return_plugin", "ifpi_chain_accept_preferences", "ifpi_chain_accept_plugin_path"}
  const InterfaceSymbols := {"ifpi_attach_glk_interface", "ifpi_retrieve_glk_interface",
                             "ifpi_attach_libc_interface", "ifpi_retrieve_libc_interface"}

  /** The `ifpi_`-prefixed symbol if the library has it, else the plain Glk one, else nothing. */
  function Preferred(symbols: set<string>, prefixed: string, plain: string): (r: Option<string>)
    ensures r.None? <==> prefixed !in symbols && plain !in symbols
    ensures prefixed in symbols ==> r == Some(prefixed)
    ensures prefixed !in symbols && plain in symbols ==> r == Some(plain)
  {
    if prefixed in symbols then Some(prefixed)
    else if plain in symbols then Some(plain)
    else None
  }

  /** A plugin that exports `ifpi_chain_set_plugin_self` must export the other chain symbols too. */
  predicate ChainComplete(symbols: set<string>)
  {
    SetPluginSelf in symbols ==> ChainSymbols <= symbols
  }

  /**
   * Whether a library can be loaded as a plugin, and what is bound if so:
   * a header of the current version, a complete chain interface or none,
   * the four interface functions, and the arguments, startup and main
   * symbols in either spelling.
   */
  function Bind(lib: Library): (r: Option<Binding>)
    ensures r.Some? ==> lib.header == Some(r.value.header) && r.value.header.version == HeaderVersion
    ensures r.Some? ==> InterfaceSymbols <= lib.symbols && ChainComplete(lib.symbols)
    ensures r.Some? ==> (r.value.chaining <==> SetPluginSelf in lib.symbols)
  {
    if lib.header.None? || lib.header.value.version != HeaderVersion then None
    else if !ChainComplete(lib.symbols) || !(InterfaceSymbols <= lib.symbols) then None
    else
      var arguments := Preferred(lib.symbols, "ifpi_glkunix_arguments", "glkunix_arguments");
      var startup := Preferred(lib.symbols, "ifpi_glkunix_startup_code", "glkunix_startup_code");
      var main := Preferred(lib.symbols, "ifpi_glk_main", "glk_main");
      if arguments.None? || startup.None? || main.None? then None
      else Some(Binding(lib.header.value, "ifpi_initializer" in lib.symbols, "ifpi_finalizer" in lib.symbols,
                        SetPluginSelf in lib.symbols, arguments.value, startup.value, main.value))
  }

  /** A library with a current header and every required symbol loads, whatever else it lacks. */
  lemma BindComplete(lib: Library)
    requires lib.header.Some? && lib.header.value.version == HeaderVersion
    requires InterfaceSymbols <= lib.symbols && ChainComplete(lib.symbols)
    requires "glkunix_arguments" in lib.symbols && "glkunix_startup_code" in lib.symbols && "glk_main" in lib.symbols
    ensures Bind(lib).Some?
    ensures Bind(lib).value.header == lib.header.value
  {
  }

  /** A chaining plugin missing any one of the other chain symbols does not load. */
  lemma PartialChainRefused(lib: Library, missing: string)
    requires SetPluginSelf in lib.symbols && missing in ChainSymbols && missing !in lib.symbols
    ensures Bind(lib).None?
  {
  }

  /** The transitions of the life cycle. */
  predicate Step(s: State, t: State)
  {
    match s {
      case Unloaded => t == Attached
      case Attached => t == Initialized || t == Finished || t == Unloaded
      case Initialized => t == Running
      case Running => t == Finished
      case Finished => t == Unloaded
    }
  }

  /** `ifp_plugin_is_unloadable`. */
  predicate Unloadable(s: State)
  {
    s == Unloaded || s == Attached || s == Finished
  }

  /** The state `ifp_plugin_unload` leaves. */
  function AfterUnload(s: State): (t: State)
    ensures t == s || Step(s, t)
    ensures t == Unloaded <==> Unloadable(s)
    ensures !Unloadable(s) ==> t == s
  {
    if s == Attached || s == Finished then Unloaded else s
  }

  /** How a plugin's `glkunix_startup_code` ended: returning a status, or calling `glk_exit`. */
  datatype Startup = Returned(status: int) | Exited

  function StartupStatus(outcome: Startup): int
  {
    if outcome.Returned? then outcome.status else 0
  }

  /** The state `ifp_plugin_initialize` leaves, given whether a plugin is already active. */
  function AfterInitialize(s: State, active: bool, outcome: Startup): (t: State)
    ensures t == s || Step(s, t)
    ensures t != s <==> s == Attached && !active
    ensures t == Initialized <==> s == Initialized || (s == Attached && !active && StartupStatus(outcome) != 0)
  {
    if s != Attached || active then s
    else if StartupStatus(outcome) != 0 then Initialized
    else Finished
  }

  /** The state on entry to the plugin's `glk_main`. */
  function AfterStart(s: State, active: bool): (t: State)
    ensures t == s || Step(s, t)
    ensures t == Running <==> s == Running || (s == Initialized && !active)
  {
    if s == Initialized && !active then Running else s
  }

  /** The state once `glk_main` returns, calls `glk_exit` or is cancelled. */
  function AfterReturn(s: State): (t: State)
    ensures t == s || Step(s, t)
    ensures s == Running ==> t == Finished
  {
    if s == Running then Finished else s
  }

  /** The operations that change a plugin's state, with the outcomes of the calls into its code. */
  datatype Operation =
    | Load(loads: bool)
    | Initialize(active: bool, outcome: Startup)
    | Start(active: bool)
    | Return
    | Unload
    | ForceUnload

  function Apply(s: State, op: Operation): (t: State)
    ensures op.ForceUnload? || t == s || Step(s, t)
  {
    match op {
      case Load(loads) => if s == Unloaded && loads then Attached else s
      case Initialize(active, outcome) => AfterInitialize(s, active, outcome)
      case Start(active) => AfterStart(s, active)
      case Return => AfterReturn(s)
      case Unload => AfterUnload(s)
      case ForceUnload => Unloaded
    }
  }

  function ApplyAll(s: State, ops: seq<Operation>): State
    decreases |ops|
  {
    if |ops| == 0 then s else ApplyAll(Apply(s, ops[0]), ops[1..])
  }

  predicate Unloads(op: Operation)
  {
    op.Unload? || op.ForceUnload?
  }

  /**
   * A finished plugin stays finished until it is unloaded: nothing restarts
   * it, so an engine runs at most once per load.
   */
  lemma {:induction false} FinishedUntilUnloaded(ops: seq<Operation>)
    requires forall k :: 0 <= k < |ops| ==> !Unloads(ops[k])
    ensures ApplyAll(Finished, ops) == Finished
  {
    if |ops| > 0 {
      assert !Unloads(ops[0]);
      FinishedUntilUnloaded(ops[1..]);
    }
  }

  /** `glk_exit_is_handleable`: set while plugin code runs under the `setjmp` trap. */
  class ExitTrap {
    var handleable: bool

    constructor ()
      ensures !handleable
    {
      handleable := false;
    }
  }

  class Plugin {
    var magic: int
    var state: State
    var filename: Option<string>
    var binding: Option<Binding>

    /** `ifp_plugin_is_valid`: the magic number is intact. */
    predicate IsValid()
      reads this
    {
      magic == PluginMagic
    }

    /** A valid plugin records a filename and a binding exactly when it is loaded, and only a current header. */
    predicate Valid()
      reads this
    {
      IsValid() &&
      (state == Unloaded <==> filename.None?) &&
      (state == Unloaded <==> binding.None?) &&
      (binding.Some? ==> binding.value.header.version == HeaderVersion)
    }

    /** `ifp_plugin_new`: an empty, unloaded plugin. */
    constructor ()
      ensures Valid() && state == Unloaded
    {
      magic, state, filename, binding := PluginMagic, Unloaded, None, None;
    }

    predicate IsLoaded()
      reads this
    {
      state != Unloaded
    }

    predicate IsInitializable()
      reads this
    {
      state == Attached
    }

    predicate IsRunnable()
      reads this
    {
      state == Initialized
    }

    predicate IsUnloadable()
      reads this
    {
      Unloadable(state)
    }

    /** `ifp_plugin_get_header`: `None` while unloaded. */
    function GetHeader(): (r: Option<Header>)
      requires Valid()
      reads this
      ensures r.None? <==> state == Unloaded
      ensures r.Some? ==> r.value == binding.value.header && r.value.version == HeaderVersion
    {
      if state == Unloaded then None else Some(binding.value.header)
    }

    /** `ifp_plugin_get_arguments`: the symbol the arguments came from, `None` while unloaded. */
    function GetArguments(): (r: Option<string>)
      requires Valid()
      reads this
      ensures r.None? <==> state == Unloaded
      ensures r.Some? ==> r.value == binding.value.arguments
    {
      if state == Unloaded then None else Some(binding.value.arguments)
    }

    /** `ifp_plugin_get_filename`: `None` while unloaded. */
    function GetFilename(): (r: Option<string>)
      requires Valid()
      reads this
      ensures r.None? <==> state == Unloaded
      ensures r == filename
    {
      if state == Unloaded then None else filename
    }

    /** `ifp_plugin_can_chain`: false while unloaded. */
    function CanChain(): (r: bool)
      requires Valid()
      reads this
      ensures r <==> state != Unloaded && binding.value.chaining
    {
      state != Unloaded && binding.value.chaining
    }

    /** `ifp_plugin_destroy`: refused unless unloaded; destruction wipes the magic number. */
    method Destroy() returns (destroyed: bool)
      requires IsValid()
      modifies this
      ensures destroyed <==> old(state) == Unloaded
      ensures destroyed ==> !IsValid() && magic == DestroyedMagic
      ensures !destroyed ==> magic == old(magic) && state == old(state) &&
                             filename == old(filename) && binding == old(binding)
    {
      destroyed := state == Unloaded;
      if destroyed {
        magic := DestroyedMagic;
      }
    }

    /**
     * `ifp_plugin_unload`: refused while initialized or running, a no-op
     * when unloaded; otherwise the plugin's finalizer runs, if it has one,
     * and the plugin is reset to empty.
     */
    method Unload() returns (finalized: bool)
      requires Valid()
      modifies this
      ensures Valid() && state == AfterUnload(old(state))
      ensures finalized <==> (old(state) == Attached || old(state) == Finished) && old(binding).value.finalizer
      ensures state == old(state) ==> filename == old(filename) && binding == old(binding)
    {
      finalized := false;
      if state == Initialized || state == Running {
        return;
      }
      if state == Attached || state == Finished {
        finalized := binding.value.finalizer;
        Reset();
      }
    }

    /** `ifp_plugin_force_unload`: unload whatever the state, on abnormal termination. */
    method ForceUnload() returns (finalized: bool)
      requires Valid()
      modifies this
      ensures Valid() && state == Unloaded
      ensures finalized <==> old(state) != Unloaded && old(binding).value.finalizer
    {
      finalized := false;
      if state != Unloaded {
        finalized := binding.value.finalizer;
        Reset();
      }
    }

    /** What `memset` followed by restoring the magic number leaves. */
    method Reset()
      modifies this
      ensures Valid() && state == Unloaded
    {
      magic, state, filename, binding := PluginMagic, Unloaded, None, None;
    }

    /**
     * `ifp_plugin_load`: refused unless unloaded; then `dlopen` must
     * succeed and each symbol is looked up in turn, the first missing one
     * failing the load.  `initialized` says whether the plugin's
     * initializer was called.
     */
    method Load(name: string, lib: Option<Library>) returns (ok: bool, initialized: bool)
      requires Valid()
      modifies this
      ensures Valid()
      ensures ok <==> old(state) == Unloaded && lib.Some? && Bind(lib.value).Some?
      ensures ok ==> state == Attached && filename == Some(name) && binding == Bind(lib.value)
      ensures !ok ==> state == old(state) && filename == old(filename) && binding == old(binding)
      ensures initialized <==> ok && binding.value.initializer
    {
      ok, initialized := false, false;
      if state != Unloaded || lib.None? {
        return;
      }
      var library := lib.value;
      if library.header.None? {
        return;
      }
      var header := library.header.value;
      if header.version != HeaderVersion {
        return;
      }
      var symbols := library.symbols;
      var initializer := "ifpi_initializer" in symbols;
      var finalizer := "ifpi_finalizer" in symbols;
      var chaining := SetPluginSelf in symbols;
      if chaining {
        if "ifpi_chain_return_plugin" !in symbols || "ifpi_chain_accept_preferences" !in symbols ||
           "ifpi_chain_accept_plugin_path" !in symbols {
          return;
        }
      }
      if "ifpi_attach_glk_interface" !in symbols || "ifpi_retrieve_glk_interface" !in symbols ||
         "ifpi_attach_libc_interface" !in symbols || "ifpi_retrieve_libc_interface" !in symbols {
        return;
      }
      var arguments := Preferred(symbols, "ifpi_glkunix_arguments", "glkunix_arguments");
      if arguments.None? {
        return;
      }
      var startup := Preferred(symbols, "ifpi_glkunix_startup_code", "glkunix_startup_code");
      if startup.None? {
        return;
      }
      var main := Preferred(symbols, "ifpi_glk_main", "glk_main");
      if main.None? {
        return;
      }
      state := Attached;
      filename := Some(name);
      binding := Some(Binding(header, initializer, finalizer, chaining, arguments.value, startup.value, main.value));
      ok, initialized := true, initializer;
    }

    /**
     * `ifp_plugin_initialize`: only an attached plugin, and only while no
     * other plugin is active.  A non-zero status from the startup code
     * initializes it; zero or a call to `glk_exit` finishes it.
     */
    method Initialize(trap: ExitTrap, outcome: Startup) returns (status: int)
      requires Valid()
      modifies this, trap
      ensures Valid() && state == AfterInitialize(old(state), old(trap.handleable), outcome)
      ensures filename == old(filename) && binding == old(binding)
      ensures trap.handleable == old(trap.handleable)
      ensures status == (if old(state) == Attached && !old(trap.handleable) then StartupStatus(outcome) else 0)
    {
      if state != Attached || trap.handleable {
        return 0;
      }
      trap.handleable := true;
      status := StartupStatus(outcome);
      trap.handleable := false;
      state := if status != 0 then Initialized else Finished;
    }

    /** The first half of `ifp_plugin_run`: checks, then the trap is set and `glk_main` entered. */
    method Start(trap: ExitTrap) returns (started: bool)
      requires Valid()
      modifies this, trap
      ensures Valid() && state == AfterStart(old(state), old(trap.handleable))
      ensures started <==> state == Running && old(state) == Initialized
      ensures trap.handleable == (started || old(trap.handleable))
      ensures filename == old(filename) && binding == old(binding)
    {
      started := state == Initialized && !trap.handleable;
      if started {
        trap.handleable := true;
        state := Running;
      }
    }

    /** The second half of `ifp_plugin_run`, once `glk_main` returns or `glk_exit` jumps back. */
    method Return(trap: ExitTrap)
      requires Valid() && state == Running
      modifies this, trap
      ensures Valid() && state == Finished && !trap.handleable
      ensures filename == old(filename) && binding == old(binding)
    {
      trap.handleable := false;
      state := Finished;
    }

    /** `ifp_plugin_run`: an initialized plugin always ends finished; any other call changes nothing. */
    method Run(trap: ExitTrap) returns (ran: bool)
      requires Valid()
      modifies this, trap
      ensures Valid()
      ensures ran <==> old(state) == Initialized && !old(trap.handleable)
      ensures ran ==> state == Finished && !trap.handleable
      ensures !ran ==> state == old(state) && trap.handleable == old(trap.handleable)
      ensures filename == old(filename) && binding == old(binding)
    {
      ran := Start(trap);
      if ran {
        Return(trap);
      }
    }

    /**
     * `ifp_plugin_cancel`: only a running plugin; the jump back into
     * `ifp_plugin_run` finishes it.
     */
    method Cancel(trap: ExitTrap) returns (cancelled: bool)
      requires Valid()
      modifies this, trap
      ensures cancelled <==> old(state) == Running
      ensures cancelled ==> Valid() && state == Finished && !trap.handleable
      ensures !cancelled ==> state == old(state) && trap.handleable == old(trap.handleable)
      ensures filename == old(filename) && binding == old(binding)
    {
      cancelled := state == Running;
      if cancelled {
        Return(trap);
      }
    }
  }

  /** `ifp_plugin_new_load`: a new plugin loaded from `name`, or `null` (the plugin destroyed) if it will not load. */
  method NewLoad(name: string, lib: Option<Library>) returns (plugin: Plugin?)
    ensures plugin == null <==> lib.None? || Bind(lib.value).None?
    ensures plugin != null ==> fresh(plugin) && plugin.Valid() && plugin.state == Attached &&
                               plugin.filename == Some(name) && plugin.binding == Bind(lib.value)
  {
    plugin := new Plugin();
    var ok, _ := plugin.Load(name, lib);
    if !ok {
      var _ := plugin.Destroy();
      plugin := null;
    }
  }
}
