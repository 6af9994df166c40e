/** What the two text renderers share: reading one character ahead, and popping a stack. */
module Scanning {

  function NextChar(content: string, i: nat): char {
    if i + 2 <= |content| then content[i + 1] else 0 as char
  }

  function Pop<T>(stack: seq<T>): seq<T> {
    if stack == [] then [] else stack[..|stack| - 1]
  }
}
