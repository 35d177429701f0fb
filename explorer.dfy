/** The module-level state of main.js that its event handlers update in place:
    the status badge, the two editor documents, the shared `material`, the
    debounce timer, the render mode and the pause flag.  `Explorer` holds it;
    each method is one handler or helper of main.js, proved against the pure
    definitions of the other modules. */
module Explorer {
  import opened Wrappers
  import opened WebGl
  import opened VersionDirective
  import opened Status
  import opened Modes
  import Debounce
  import opened LiveCompile

  /** The fields of the three.js `RawShaderMaterial` that `compile` writes. */
  class ShaderMaterial {
    var vertexShader: string
    var fragmentShader: string
    /** Set to ask the renderer to rebuild the program on the next frame. */
    var needsUpdate: bool

    constructor (vertexShader: string, fragmentShader: string)
      ensures this.vertexShader == vertexShader && this.fragmentShader == fragmentShader
      ensures !needsUpdate
    {
      this.vertexShader := vertexShader;
      this.fragmentShader := fragmentShader;
      needsUpdate := false;
    }
  }

  class Explorer {
    var status: Status
    /** The text of the vertex and fragment editors. */
    var vertexDoc: string
    var fragmentDoc: string
    const material: ShaderMaterial
    const gl: Context
    var timers: Debounce.Timers
    var currentMode: nat
    /** The value of the uniform `iMode`. */
    var iMode: nat
    var isPaused: bool

    ghost predicate Valid()
      reads this, gl
    {
      && gl.Valid()
      && Debounce.Inv(timers)
      && currentMode < |MODES|
      && iMode == MODES[currentMode].id
    }

    /** The state once `init` has loaded both shader files: the editors hold
        them, the material holds them without their `#version` lines,
        `setupUI` has applied mode 0 and the status is live. */
    constructor (compiler: Compiler, vert: string, frag: string)
      ensures Valid() && fresh(gl) && fresh(material)
      ensures gl.compiler == compiler && gl.shaders == map[]
      ensures vertexDoc == vert && fragmentDoc == frag
      ensures material.vertexShader == Clean(vert) && material.fragmentShader == Clean(frag)
      ensures !material.needsUpdate
      ensures status == Live && timers == Debounce.Initial()
      ensures currentMode == 0 && iMode == 0 && !isPaused
    {
      gl := new Context(compiler);
      material := new ShaderMaterial(Clean(vert), Clean(frag));
      vertexDoc, fragmentDoc := vert, frag;
      timers := Debounce.Initial();
      currentMode, iMode := 0, MODES[0].id;
      isPaused := false;
      status := Live;
    }

    /** `setStatus(state, msg)`. */
    method SetStatus(state: string, msg: string)
      modifies this`status
      ensures status == StatusFor(state, msg)
    {
      status := StatusFor(state, msg);
    }

    /** `scheduleCompile()`: show "editing", cancel the pending compile and
        arm a new one in its place. */
    method ScheduleCompile()
      requires Valid()
      modifies this`status, this`timers
      ensures Valid()
      ensures status == Editing
      ensures timers == Debounce.Schedule(old(timers))
      ensures timers.armed == {timers.compileTimer.value}
    {
      SetStatus("typing", "");
      timers := Debounce.Schedule(timers);
    }

    /** An editor transaction that changed the document, leaving `text`:
        the editor's update listener calls `scheduleCompile`. */
    method Edit(kind: ShaderType, text: string)
      requires Valid()
      modifies this`vertexDoc, this`fragmentDoc, this`status, this`timers
      ensures Valid()
      ensures kind == VertexShader ==> vertexDoc == text && fragmentDoc == old(fragmentDoc)
      ensures kind == FragmentShader ==> fragmentDoc == text && vertexDoc == old(vertexDoc)
      ensures status == Editing && timers == Debounce.Schedule(old(timers))
    {
      if kind == VertexShader {
        vertexDoc := text;
      } else {
        fragmentDoc := text;
      }
      ScheduleCompile();
    }

    /** `compile()`: check the vertex stage, then the fragment stage, each
        against the driver; install both cleaned sources together only when
        both pass.  A failure leaves the material as it was and shows the
        failing stage's diagnostic. */
    method Compile()
      requires Valid()
      modifies this`status, material, gl
      ensures Valid()
      ensures gl.shaders == old(gl.shaders)
      ensures gl.nextHandle == old(gl.nextHandle) + (if gl.compiler.accepts(VertexShader, vertexDoc) then 2 else 1)
      ensures match CompileGate(gl.compiler, vertexDoc, fragmentDoc)
        case Rejected(msg) =>
          && status == Failed(msg)
          && material.vertexShader == old(material.vertexShader)
          && material.fragmentShader == old(material.fragmentShader)
          && material.needsUpdate == old(material.needsUpdate)
        case Installed(v, f) =>
          && status == Live
          && material.vertexShader == v && material.fragmentShader == f
          && material.needsUpdate
    {
      var vSrc := vertexDoc;
      var fSrc := fragmentDoc;
      var vErr := ShaderError(gl, VertexShader, vSrc, "Vertex");
      if vErr.Some? {
        SetStatus("error", vErr.value);
        return;
      }
      var fErr := ShaderError(gl, FragmentShader, fSrc, "Fragment");
      if fErr.Some? {
        SetStatus("error", fErr.value);
        return;
      }
      material.vertexShader := Clean(vSrc);
      material.fragmentShader := Clean(fSrc);
      material.needsUpdate := true;
      SetStatus("live", "");
    }

    /** The browser's timer `id` elapses: a timer still armed runs `compile`;
        one that `clearTimeout` cancelled does nothing. */
    method Elapse(id: nat)
      requires Valid()
      modifies this`status, this`timers, material, gl
      ensures Valid()
      ensures timers == Debounce.Fire(old(timers), id).0
      ensures gl.shaders == old(gl.shaders)
      ensures Debounce.Fire(old(timers), id).1 ==> old(timers).compileTimer == Some(id)
      ensures Debounce.Fire(old(timers), id).1 ==>
        gl.nextHandle == old(gl.nextHandle) + (if gl.compiler.accepts(VertexShader, vertexDoc) then 2 else 1)
      ensures !Debounce.Fire(old(timers), id).1 ==>
        && status == old(status)
        && material.vertexShader == old(material.vertexShader)
        && material.fragmentShader == old(material.fragmentShader)
        && material.needsUpdate == old(material.needsUpdate)
        && gl.shaders == old(gl.shaders) && gl.nextHandle == old(gl.nextHandle)
      ensures Debounce.Fire(old(timers), id).1 ==>
        match CompileGate(gl.compiler, vertexDoc, fragmentDoc)
        case Rejected(msg) =>
          && status == Failed(msg)
          && material.vertexShader == old(material.vertexShader)
          && material.fragmentShader == old(material.fragmentShader)
          && material.needsUpdate == old(material.needsUpdate)
        case Installed(v, f) =>
          && status == Live
          && material.vertexShader == v && material.fragmentShader == f
          && material.needsUpdate
    {
      Debounce.FireOnlyLatest(timers, id);
      var (next, fires) := Debounce.Fire(timers, id);
      timers := next;
      if fires {
        Compile();
      }
    }

    /** `applyMode(idx)`: the uniform `iMode` takes the entry's id. */
    method ApplyMode(idx: nat)
      requires idx < |MODES|
      modifies this`iMode
      ensures iMode == ModeId(idx) == idx
    {
      iMode := MODES[idx].id;
    }

    /** The mode pill: `currentMode = (currentMode + 1) % MODES.length` and
        `applyMode(currentMode)`. */
    method CycleMode()
      requires Valid()
      modifies this`currentMode, this`iMode
      ensures Valid()
      ensures currentMode == NextMode(old(currentMode)) && iMode == currentMode
    {
      currentMode := (currentMode + 1) % |MODES|;
      ApplyMode(currentMode);
    }

    /** A click on entry `i` of the mode menu: `currentMode = i; applyMode(i)`. */
    method SelectMode(i: nat)
      requires Valid() && i < |MODES|
      modifies this`currentMode, this`iMode
      ensures Valid()
      ensures currentMode == i && iMode == i
    {
      currentMode := i;
      ApplyMode(i);
    }

    /** The pause button: `isPaused = !isPaused`. */
    method TogglePause()
      modifies this`isPaused
      ensures isPaused == !old(isPaused)
    {
      isPaused := !isPaused;
    }
  }
}
