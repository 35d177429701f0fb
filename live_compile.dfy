/** What `compile` of main.js decides, as a value: each stage's raw editor text
    is tried against the driver's compiler, vertex first; only when both
    compile are the two sources installed, both at once and both with their
    `#version` line taken out by `clean`. */
module LiveCompile {
  import opened Wrappers
  import opened WebGl
  import opened VersionDirective

  /** Either the diagnostic to show, or the pair of sources to install. */
  datatype Outcome = Rejected(diagnostic: string) | Installed(vertex: string, fragment: string)

  function CompileGate(c: Compiler, vSrc: string, fSrc: string): (o: Outcome)
    ensures o.Installed? <==> c.accepts(VertexShader, vSrc) && c.accepts(FragmentShader, fSrc)
    ensures o.Installed? ==> o.vertex == Clean(vSrc) && o.fragment == Clean(fSrc)
    ensures !c.accepts(VertexShader, vSrc) ==>
      o == Rejected("[Vertex] " + c.infoLog(VertexShader, vSrc))
    ensures c.accepts(VertexShader, vSrc) && !c.accepts(FragmentShader, fSrc) ==>
      o == Rejected("[Fragment] " + c.infoLog(FragmentShader, fSrc))
  {
    match Diagnostic(c, VertexShader, vSrc, "Vertex")
    case Some(vErr) => Rejected(vErr)
    case None =>
      match Diagnostic(c, FragmentShader, fSrc, "Fragment")
      case Some(fErr) => Rejected(fErr)
      case None => Installed(Clean(vSrc), Clean(fSrc))
  }

  /** When the vertex stage fails the fragment stage is never consulted: the
      outcome is the same whatever the fragment text and whatever the driver
      would say about it. */
  lemma VertexFailureIgnoresFragment(c: Compiler, c': Compiler, vSrc: string, fSrc: string, fSrc': string)
    requires !c.accepts(VertexShader, vSrc)
    requires c'.accepts(VertexShader, vSrc) == c.accepts(VertexShader, vSrc)
    requires c'.infoLog(VertexShader, vSrc) == c.infoLog(VertexShader, vSrc)
    ensures CompileGate(c, vSrc, fSrc) == CompileGate(c', vSrc, fSrc')
  {
  }

  /** The oracle judges the raw editor text, directive included, while what
      gets installed is that text with its first directive removed; text
      without a directive is installed as it stands. */
  lemma InstalledIsCleanedEditorText(c: Compiler, vSrc: string, fSrc: string)
    requires CompileGate(c, vSrc, fSrc).Installed?
    ensures |CompileGate(c, vSrc, fSrc).vertex| <= |vSrc|
    ensures |CompileGate(c, vSrc, fSrc).fragment| <= |fSrc|
    ensures NoDirective(vSrc) ==> CompileGate(c, vSrc, fSrc).vertex == vSrc
    ensures NoDirective(fSrc) ==> CompileGate(c, vSrc, fSrc).fragment == fSrc
  {
    CleanCases(vSrc);
    CleanCases(fSrc);
    if !NoDirective(vSrc) {
      var p, e :| FirstDirective(vSrc, p, e) && Clean(vSrc) == vSrc[..p] + vSrc[e..];
      DeletedSegmentShape(vSrc, p, e);
    }
    if !NoDirective(fSrc) {
      var p, e :| FirstDirective(fSrc, p, e) && Clean(fSrc) == fSrc[..p] + fSrc[e..];
      DeletedSegmentShape(fSrc, p, e);
    }
  }
}
