/**
 * The naming resolver: the display name of a binding target, passed through
 * the user's rename hook when one is configured.
 */
module Naming {
  import opened Ast

  /** The second argument of the rename hook, `{filename, cwd}` */
  datatype RenameContext = RenameContext(filename: Option<string>, cwd: string)

  /**
   * A rename hook. Its answer is None for a falsy value that is not a string
   * (undefined, null, false); an empty string is falsy too.
   */
  type Hook = (string, RenameContext) -> Option<string>

  /** The visit state: the resolved hook, the file being compiled, the working directory */
  datatype State = State(rename: Option<Hook>, filename: Option<string>, cwd: string)

  /** A JavaScript value that is a non-empty string */
  predicate Truthy(s: Option<string>) {
    s.Some? && s.value != ""
  }

  /** `node.name || 'null'` */
  function BaseName(id: LVal): (r: string)
    ensures r != ""
    ensures Truthy(id.name) ==> r == id.name.value
    ensures !Truthy(id.name) ==> r == "null"
  {
    if Truthy(id.name) then id.name.value else "null"
  }

  /** What the hook answers for `name` in the state `st` */
  function HookAnswer(st: State, name: string): Option<string>
    requires st.rename.Some?
  {
    st.rename.value(name, RenameContext(st.filename, st.cwd))
  }

  /**
   * `getName(node, state)`: reading `name` of an absent target throws; the
   * result is the hook's answer when that is a non-empty string, and the
   * base name otherwise.
   */
  function GetName(id: Option<LVal>, st: State): (r: Result<string>)
    ensures r.Err? <==> id.None?
    ensures r.Err? ==> r.error == TypeError
    ensures r.Ok? ==> r.value != ""
    ensures r.Ok? ==>
      if st.rename.Some? && Truthy(HookAnswer(st, BaseName(id.value)))
      then Some(r.value) == HookAnswer(st, BaseName(id.value))
      else r.value == BaseName(id.value)
  {
    if id.None? then Err(TypeError)
    else
      var name := BaseName(id.value);
      if st.rename.Some? then
        var answer := st.rename.value(name, RenameContext(st.filename, st.cwd));
        if Truthy(answer) then Ok(answer.value) else Ok(name)
      else Ok(name)
  }

  /** Without a hook the display name is exactly the base name. */
  lemma NoHookGivesBaseName(id: LVal, filename: Option<string>, cwd: string)
    ensures GetName(Some(id), State(None, filename, cwd)) == Ok(BaseName(id))
  {
  }

  /** A hook that declines (a falsy answer) leaves the base name. */
  lemma DecliningHookGivesBaseName(id: LVal, st: State)
    requires st.rename.Some? && !Truthy(HookAnswer(st, BaseName(id)))
    ensures GetName(Some(id), st) == Ok(BaseName(id))
  {
  }

  /** ASCII upper-casing, as done by the hook `name => name.toUpperCase()` */
  function Upper(s: string): (r: string)
    ensures |r| == |s|
    ensures forall i :: 0 <= i < |s| ==> r[i] == if 'a' <= s[i] <= 'z' then (s[i] as int - 32) as char else s[i]
  {
    if s == [] then []
    else [if 'a' <= s[0] <= 'z' then (s[0] as int - 32) as char else s[0]] + Upper(s[1..])
  }

  /** With the upper-casing hook, a component bound to `foo` is named `FOO`. */
  lemma UpperCaseHookExample(filename: Option<string>, cwd: string)
    ensures GetName(Some(LVal(Some("foo"))), State(Some((n, _) => Some(Upper(n))), filename, cwd)) == Ok("FOO")
  {
    assert Upper("foo") == "FOO";
  }

  /** A destructuring target, or an identifier without a name, is named `null`. */
  lemma NamelessTargetIsNull(st: State)
    requires st.rename.None?
    ensures GetName(Some(LVal(None)), st) == Ok("null")
    ensures GetName(Some(LVal(Some(""))), st) == Ok("null")
  {
  }
}
