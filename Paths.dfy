/** File paths as strings. */
module Paths {

  /** `os.path.join(dir, name)` for a `name` that is not absolute. */
  function Join(dir: string, name: string): string {
    dir + "/" + name
  }

  /** Different names under one directory give different paths. */
  lemma JoinInjective(dir: string, a: string, b: string)
    ensures Join(dir, a) == Join(dir, b) <==> a == b
  {
    assert a == Join(dir, a)[|dir| + 1..];
    assert b == Join(dir, b)[|dir| + 1..];
  }
}
