/** The raw scanner's namespace scope: declarations pushed with a start tag and popped with its end.
    Namespaces in XML 1.0, sections 6.1 and 6.2. */
module Namespaces {
  import opened Prelude
  import opened Text
  import opened AttributeText

  /** `RawNamespaceContext` without the root prefixes, which never change. */
  datatype Scope = Scope(defaultNamespace: Option<string>, prefixes: map<string, string>)

  /** `RawNamespaceFrame`: what a start tag's declarations replaced. */
  datatype Frame = Frame(defaultNamespace: Option<Option<string>>, prefixes: seq<(string, Option<string>)>)

  const NOTHING := Scope(None, map[])
  const NO_FRAME := Frame(None, [])

  // ---------------------------------------------------------------- declarations

  datatype Key = Default | Prefix(name: string)

  function DeclaredKey(attr: Attribute): Option<Key> {
    if attr.name == "xmlns" then Some(Default)
    else if "xmlns:" <= attr.name then Some(Prefix(attr.name[6..]))
    else None
  }

  /** `raw_namespace_value`: an empty value undeclares. */
  function DeclaredValue(value: string): Option<string> {
    if value == "" then None else Some(value)
  }

  function Lookup(scope: Scope, key: Key): Option<string> {
    match key
    case Default => scope.defaultNamespace
    case Prefix(name) => if name in scope.prefixes then Some(scope.prefixes[name]) else None
  }

  function WithPrefix(prefixes: map<string, string>, name: string, value: Option<string>): map<string, string> {
    match value
    case Some(namespace) => prefixes[name := namespace]
    case None => prefixes - {name}
  }

  function Set(scope: Scope, key: Key, value: Option<string>): Scope {
    match key
    case Default => scope.(defaultNamespace := value)
    case Prefix(name) => scope.(prefixes := WithPrefix(scope.prefixes, name, value))
  }

  /** The frame entry for a replaced declaration; the default namespace is saved only once. */
  function Saved(frame: Frame, key: Key, previous: Option<string>): Frame {
    match key
    case Default => if frame.defaultNamespace.None? then frame.(defaultNamespace := Some(previous)) else frame
    case Prefix(name) => frame.(prefixes := frame.prefixes + [(name, previous)])
  }

  /** `push_declarations` */
  function Push(scope: Scope, attrs: seq<Attribute>): (Scope, Frame) {
    if attrs == [] then (scope, NO_FRAME)
    else
      var (before, frame) := Push(scope, attrs[..|attrs| - 1]);
      var last := attrs[|attrs| - 1];
      match DeclaredKey(last)
      case None => (before, frame)
      case Some(key) => (Set(before, key, DeclaredValue(last.value)), Saved(frame, key, Lookup(before, key)))
  }

  function PopPrefixes(prefixes: map<string, string>, saved: seq<(string, Option<string>)>): map<string, string>
    decreases |saved|
  {
    if saved == [] then prefixes
    else
      var last := saved[|saved| - 1];
      PopPrefixes(WithPrefix(prefixes, last.0, last.1), saved[..|saved| - 1])
  }

  /** `pop_declarations` */
  function Pop(scope: Scope, frame: Frame): Scope {
    Scope(if frame.defaultNamespace.Some? then frame.defaultNamespace.value else scope.defaultNamespace,
          PopPrefixes(scope.prefixes, frame.prefixes))
  }

  /** Popping undoes a push exactly, however often one tag repeats a declaration. */
  lemma {:induction false} PopUndoesPush(scope: Scope, attrs: seq<Attribute>)
    ensures Pop(Push(scope, attrs).0, Push(scope, attrs).1) == scope
    ensures Push(scope, attrs).1.defaultNamespace == None ==> Push(scope, attrs).0.defaultNamespace == scope.defaultNamespace
  {
    if attrs != [] {
      var (before, frame) := Push(scope, attrs[..|attrs| - 1]);
      PopUndoesPush(scope, attrs[..|attrs| - 1]);
      var last := attrs[|attrs| - 1];
      if DeclaredKey(last).Some? && DeclaredKey(last).value.Prefix? {
        var name, value := DeclaredKey(last).value.name, DeclaredValue(last.value);
        var entry := (name, Lookup(before, Prefix(name)));
        assert WithPrefix(WithPrefix(before.prefixes, name, value), name, entry.1) == before.prefixes;
        assert (frame.prefixes + [entry])[..|frame.prefixes|] == frame.prefixes;
      }
    }
  }

  // ---------------------------------------------------------------- the innermost open declaration

  /** The value of the last attribute of this very name in one tag. */
  function Declared(attrs: seq<Attribute>, name: string): Option<string> {
    if attrs == [] then None
    else if attrs[|attrs| - 1].name == name then Some(attrs[|attrs| - 1].value)
    else Declared(attrs[..|attrs| - 1], name)
  }

  /** A declaration found in a tag, or else the namespace from outside; an empty value undeclares. */
  function Inside(declared: Option<string>, outside: Option<string>): Option<string> {
    match declared
    case Some(value) => if value == "" then None else declared
    case None => outside
  }

  /** What the nearest of the open elements with an attribute of this name declares by it; the list
      has the outermost element first. */
  function Innermost(open: seq<seq<Attribute>>, name: string): Option<string> {
    if open == [] then None else Inside(Declared(open[|open| - 1], name), Innermost(open[..|open| - 1], name))
  }

  lemma NameIsKey(name: string, prefix: string)
    ensures name == "xmlns:" + prefix <==> "xmlns:" <= name && name[6..] == prefix
  {
    if "xmlns:" <= name {
      assert name == name[..6] + name[6..];
    }
  }

  /** After a tag's declarations a prefix p means what the tag's last xmlns:p says, the default namespace
      what its last xmlns says, and both what they meant before if there is none. */
  lemma {:induction false} PushDeclares(scope: Scope, attrs: seq<Attribute>, prefix: string)
    ensures Lookup(Push(scope, attrs).0, Prefix(prefix)) == Inside(Declared(attrs, "xmlns:" + prefix), Lookup(scope, Prefix(prefix)))
    ensures Push(scope, attrs).0.defaultNamespace == Inside(Declared(attrs, "xmlns"), scope.defaultNamespace)
  {
    if attrs != [] {
      PushDeclares(scope, attrs[..|attrs| - 1], prefix);
      NameIsKey(attrs[|attrs| - 1].name, prefix);
    }
  }

  // ---------------------------------------------------------------- a run of tags

  datatype Token = OpenTag(attrs: seq<Attribute>) | CloseTag | EmptyTag(attrs: seq<Attribute>)

  /** The scanner's state: the scope and the frames of the open tags. */
  datatype State = State(scope: Scope, frames: seq<Frame>)

  function Step(state: State, token: Token): State {
    match token
    case OpenTag(attrs) =>
      var (scope, frame) := Push(state.scope, attrs);
      State(scope, state.frames + [frame])
    case EmptyTag(attrs) =>
      var (scope, frame) := Push(state.scope, attrs);
      State(Pop(scope, frame), state.frames)
    case CloseTag =>
      if state.frames == [] then state
      else State(Pop(state.scope, state.frames[|state.frames| - 1]), state.frames[..|state.frames| - 1])
  }

  function Run(tokens: seq<Token>): State {
    if tokens == [] then State(NOTHING, []) else Step(Run(tokens[..|tokens| - 1]), tokens[|tokens| - 1])
  }

  /** The open elements themselves; a stray end tag closes nothing. */
  function OpenElements(tokens: seq<Token>): seq<seq<Attribute>> {
    if tokens == [] then []
    else
      var open := OpenElements(tokens[..|tokens| - 1]);
      match tokens[|tokens| - 1]
      case OpenTag(attrs) => open + [attrs]
      case EmptyTag(_) => open
      case CloseTag => if open == [] then [] else open[..|open| - 1]
  }

  /** The state the open elements alone would give. */
  function StateOf(open: seq<seq<Attribute>>): State {
    if open == [] then State(NOTHING, []) else Step(StateOf(open[..|open| - 1]), OpenTag(open[|open| - 1]))
  }

  lemma {:induction false} StateRemembersOpen(open: seq<seq<Attribute>>)
    ensures |StateOf(open).frames| == |open|
    ensures open != [] ==> Step(StateOf(open), CloseTag) == StateOf(open[..|open| - 1])
  {
    if open != [] {
      var before, attrs := StateOf(open[..|open| - 1]), open[|open| - 1];
      StateRemembersOpen(open[..|open| - 1]);
      PopUndoesPush(before.scope, attrs);
      var frame := Push(before.scope, attrs).1;
      assert (before.frames + [frame])[..|before.frames|] == before.frames;
    }
  }

  /** Closed elements leave no trace, whatever they declared. */
  lemma {:induction false} RunIsOpenElements(tokens: seq<Token>)
    ensures Run(tokens) == StateOf(OpenElements(tokens))
  {
    if tokens != [] {
      var before, last := tokens[..|tokens| - 1], tokens[|tokens| - 1];
      RunIsOpenElements(before);
      var open := OpenElements(before);
      StateRemembersOpen(open);
      match last
      case OpenTag(attrs) => assert (open + [attrs])[..|open|] == open;
      case EmptyTag(attrs) => PopUndoesPush(StateOf(open).scope, attrs);
      case CloseTag =>
    }
  }

  lemma {:induction false} ScopeIsInnermost(open: seq<seq<Attribute>>, prefix: string)
    ensures Lookup(StateOf(open).scope, Prefix(prefix)) == Innermost(open, "xmlns:" + prefix)
    ensures StateOf(open).scope.defaultNamespace == Innermost(open, "xmlns")
  {
    if open != [] {
      ScopeIsInnermost(open[..|open| - 1], prefix);
      PushDeclares(StateOf(open[..|open| - 1]).scope, open[|open| - 1], prefix);
    }
  }

  /** `tag_namespace` */
  function TagNamespace(scope: Scope, tag: string): Option<string> {
    match SplitOnce(tag, ':')
    case Some(parts) => Lookup(scope, Prefix(parts.0))
    case None => scope.defaultNamespace
  }

  /** After any run of tags, well nested or not: the namespace of a tag p:l is what the nearest open
      element with an attribute xmlns:p declares by it, that of a tag without a colon what the nearest
      one with an attribute xmlns declares, and none if that declaration is empty or missing. */
  lemma NamespaceIsInnermost(tokens: seq<Token>, prefix: string, local: string)
    requires ':' !in prefix
    ensures TagNamespace(Run(tokens).scope, prefix + ":" + local) == Innermost(OpenElements(tokens), "xmlns:" + prefix)
    ensures TagNamespace(Run(tokens).scope, prefix) == Innermost(OpenElements(tokens), "xmlns")
  {
    RunIsOpenElements(tokens);
    ScopeIsInnermost(OpenElements(tokens), prefix);
    SplitOnceAt(prefix, ':', local);
  }

  /** One declaration by its raw name: it binds its own prefix, or unbinds it if it is empty, and leaves
      every other prefix and the default namespace alone. */
  lemma PrefixDeclared(scope: Scope, prefix: string, value: string, local: string, other: string)
    requires ':' !in prefix && ':' !in other
    ensures var after := Push(scope, [Attribute("xmlns:" + prefix, value)]).0;
            && TagNamespace(after, prefix + ":" + local) == (if value == "" then None else Some(value))
            && (other != prefix ==> TagNamespace(after, other + ":" + local) == TagNamespace(scope, other + ":" + local))
            && TagNamespace(after, other) == TagNamespace(scope, other)
  {
    var attrs := [Attribute("xmlns:" + prefix, value)];
    OneAttribute(attrs[0]);
    PushDeclares(scope, attrs, prefix);
    PushDeclares(scope, attrs, other);
    SplitOnceAt(prefix, ':', local);
    SplitOnceAt(other, ':', local);
    assert ("xmlns:" + prefix)[6..] == prefix && ("xmlns:" + other)[6..] == other;
    assert "xmlns:" + prefix != "xmlns" && ("xmlns:" + prefix == "xmlns:" + other ==> prefix == other);
  }

  lemma OneAttribute(attr: Attribute)
    ensures forall name :: Declared([attr], name) == if attr.name == name then Some(attr.value) else None
  {
    assert [attr][..0] == [];
  }

  /** The default namespace is declared by xmlns alone, for tags without a colon alone. */
  lemma DefaultDeclared(scope: Scope, value: string, tag: string, local: string)
    requires ':' !in tag
    ensures var after := Push(scope, [Attribute("xmlns", value)]).0;
            && TagNamespace(after, tag) == (if value == "" then None else Some(value))
            && TagNamespace(after, tag + ":" + local) == TagNamespace(scope, tag + ":" + local)
  {
    var attrs := [Attribute("xmlns", value)];
    OneAttribute(attrs[0]);
    PushDeclares(scope, attrs, tag);
    SplitOnceAt(tag, ':', local);
  }

  /** Attributes of any other name declare nothing. */
  lemma OthersDeclareNothing(scope: Scope, attr: Attribute)
    requires attr.name != "xmlns" && !("xmlns:" <= attr.name)
    ensures Push(scope, [attr]) == (scope, NO_FRAME)
  {
    assert [attr][..0] == [];
  }

  // ---------------------------------------------------------------- the context as the source updates it

  class NamespaceContext {
    var defaultNamespace: Option<string>
    var prefixes: map<string, string>

    constructor ()
      ensures Value() == NOTHING
    {
      defaultNamespace, prefixes := None, map[];
    }

    function Value(): Scope
      reads this
    {
      Scope(defaultNamespace, prefixes)
    }

    method PushDeclarations(attrs: seq<Attribute>) returns (frame: Frame)
      modifies this
      ensures (Value(), frame) == Push(old(Value()), attrs)
      ensures defaultNamespace == Inside(Declared(attrs, "xmlns"), old(defaultNamespace))
      ensures forall p: string ::
                Lookup(Value(), Prefix(p)) == Inside(Declared(attrs, "xmlns:" + p), old(Lookup(Value(), Prefix(p))))
    {
      frame := NO_FRAME;
      for i := 0 to |attrs|
        invariant (Value(), frame) == Push(old(Value()), attrs[..i])
      {
        assert attrs[..i + 1][..i] == attrs[..i];
        var attr := attrs[i];
        if attr.name == "xmlns" {
          if frame.defaultNamespace.None? {
            frame := frame.(defaultNamespace := Some(defaultNamespace));
          }
          defaultNamespace := DeclaredValue(attr.value);
        } else if "xmlns:" <= attr.name {
          var prefix := attr.name[6..];
          frame := frame.(prefixes := frame.prefixes + [(prefix, if prefix in prefixes then Some(prefixes[prefix]) else None)]);
          if attr.value != "" {
            prefixes := prefixes[prefix := attr.value];
          } else {
            prefixes := prefixes - {prefix};
          }
        }
      }
      assert attrs[..|attrs|] == attrs;
      forall p: string
        ensures Lookup(Value(), Prefix(p)) == Inside(Declared(attrs, "xmlns:" + p), old(Lookup(Value(), Prefix(p))))
      {
        PushDeclares(old(Value()), attrs, p);
      }
      PushDeclares(old(Value()), attrs, "");
    }

    method PopDeclarations(frame: Frame)
      modifies this
      ensures Value() == Pop(old(Value()), frame)
    {
      if frame.defaultNamespace.Some? {
        defaultNamespace := frame.defaultNamespace.value;
      }
      ghost var before := Value();
      var i := |frame.prefixes|;
      assert frame.prefixes[..i] == frame.prefixes;
      while i > 0
        invariant i <= |frame.prefixes| && defaultNamespace == before.defaultNamespace
        invariant PopPrefixes(prefixes, frame.prefixes[..i]) == PopPrefixes(before.prefixes, frame.prefixes)
      {
        i := i - 1;
        assert frame.prefixes[..i + 1][..i] == frame.prefixes[..i];
        var entry := frame.prefixes[i];
        if entry.1.Some? {
          prefixes := prefixes[entry.0 := entry.1.value];
        } else {
          prefixes := prefixes - {entry.0};
        }
      }
    }
  }

  /** The scan over the tags with its stack of frames. */
  method ScanTags(tokens: seq<Token>) returns (context: NamespaceContext, frames: seq<Frame>)
    ensures fresh(context) && State(context.Value(), frames) == Run(tokens)
  {
    context := new NamespaceContext();
    frames := [];
    for i := 0 to |tokens|
      invariant fresh(context) && State(context.Value(), frames) == Run(tokens[..i])
    {
      assert tokens[..i + 1][..i] == tokens[..i];
      match tokens[i] {
        case OpenTag(attrs) =>
          var frame := context.PushDeclarations(attrs);
          frames := frames + [frame];
        case EmptyTag(attrs) =>
          var frame := context.PushDeclarations(attrs);
          context.PopDeclarations(frame);
        case CloseTag =>
          if frames != [] {
            context.PopDeclarations(frames[|frames| - 1]);
            frames := frames[..|frames| - 1];
          }
      }
    }
    assert tokens[..|tokens|] == tokens;
  }
}
