/** The slice of the WebGL context that `shaderError` in main.js uses:
    shader objects are created, given source, compiled, queried and deleted.
    The driver's GLSL compiler stays a black box, the `Compiler` oracle: it
    says whether a stage's source compiles and what the info log then reads.
    GLSL itself is not modelled. */
module WebGl {
  import opened Wrappers

  datatype ShaderType = VertexShader | FragmentShader

  /** The driver's compiler: a verdict and an info log for each stage and source. */
  datatype Compiler = Compiler(accepts: (ShaderType, string) -> bool, infoLog: (ShaderType, string) -> string)

  /** A live shader object: its stage, its source, and its COMPILE_STATUS. */
  datatype ShaderObject = ShaderObject(kind: ShaderType, source: string, compiled: bool)

  class Context {
    const compiler: Compiler
    /** The shader objects not yet deleted, by handle. */
    var shaders: map<nat, ShaderObject>
    /** The handle the next `createShader` returns. */
    var nextHandle: nat

    ghost predicate Valid()
      reads this
    {
      forall h :: h in shaders ==> h < nextHandle
    }

    constructor (compiler: Compiler)
      ensures Valid() && this.compiler == compiler
      ensures shaders == map[] && nextHandle == 0
    {
      this.compiler := compiler;
      shaders := map[];
      nextHandle := 0;
    }

    /** `gl.createShader(kind)`: a fresh, empty, uncompiled shader object. */
    method CreateShader(kind: ShaderType) returns (h: nat)
      requires Valid()
      modifies this
      ensures Valid()
      ensures h == old(nextHandle) && nextHandle == old(nextHandle) + 1
      ensures h !in old(shaders)
      ensures shaders == old(shaders)[h := ShaderObject(kind, "", false)]
    {
      h := nextHandle;
      shaders := shaders[h := ShaderObject(kind, "", false)];
      nextHandle := nextHandle + 1;
    }

    /** `gl.shaderSource(h, src)`. */
    method ShaderSource(h: nat, src: string)
      requires Valid() && h in shaders
      modifies this
      ensures Valid() && nextHandle == old(nextHandle)
      ensures shaders == old(shaders)[h := old(shaders)[h].(source := src)]
    {
      shaders := shaders[h := shaders[h].(source := src)];
    }

    /** `gl.compileShader(h)`: the driver decides, and the verdict is kept. */
    method CompileShader(h: nat)
      requires Valid() && h in shaders
      modifies this
      ensures Valid() && nextHandle == old(nextHandle)
      ensures shaders == old(shaders)[h := old(shaders)[h].(compiled :=
        compiler.accepts(old(shaders)[h].kind, old(shaders)[h].source))]
    {
      var sh := shaders[h];
      shaders := shaders[h := sh.(compiled := compiler.accepts(sh.kind, sh.source))];
    }

    /** `gl.getShaderParameter(h, gl.COMPILE_STATUS)`. */
    function CompileStatus(h: nat): bool
      reads this
      requires h in shaders
    {
      shaders[h].compiled
    }

    /** `gl.getShaderInfoLog(h)`. */
    function InfoLog(h: nat): string
      reads this
      requires h in shaders
    {
      compiler.infoLog(shaders[h].kind, shaders[h].source)
    }

    /** `gl.deleteShader(h)`. */
    method DeleteShader(h: nat)
      requires Valid()
      modifies this
      ensures Valid() && nextHandle == old(nextHandle)
      ensures shaders == old(shaders) - {h}
    {
      shaders := shaders - {h};
    }
  }

  /** The diagnostic `shaderError` reports for one stage: none when the driver
      accepts the source, otherwise the driver's log tagged `[label] `.  A
      reported diagnostic is never empty, so the caller's truthiness test
      `if (err)` fires exactly on a failed compile. */
  function Diagnostic(c: Compiler, kind: ShaderType, src: string, tag: string): (d: Option<string>)
    ensures d.None? <==> c.accepts(kind, src)
    ensures d.Some? ==> d.value != ""
    ensures d.Some? ==>
      && |d.value| == |tag| + 3 + |c.infoLog(kind, src)|
      && d.value[..|tag| + 3] == "[" + tag + "] "
      && d.value[|tag| + 3..] == c.infoLog(kind, src)
  {
    if c.accepts(kind, src) then None else Some("[" + tag + "] " + c.infoLog(kind, src))
  }

  /** `shaderError(gl, type, src, label)`: compile `src` in a throw-away shader
      object and report the diagnostic.  The object is deleted on both paths,
      so the set of live shader objects is as it was. */
  method ShaderError(gl: Context, kind: ShaderType, src: string, tag: string) returns (err: Option<string>)
    requires gl.Valid()
    modifies gl
    ensures gl.Valid()
    ensures gl.shaders == old(gl.shaders)
    ensures gl.nextHandle == old(gl.nextHandle) + 1
    ensures err == Diagnostic(gl.compiler, kind, src, tag)
  {
    var sh := gl.CreateShader(kind);
    gl.ShaderSource(sh, src);
    gl.CompileShader(sh);
    var ok := gl.CompileStatus(sh);
    err := if ok then None else Some("[" + tag + "] " + gl.InfoLog(sh));
    gl.DeleteShader(sh);
    assert gl.shaders == old(gl.shaders);
  }
}
