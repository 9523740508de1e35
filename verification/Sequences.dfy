/** Sequences back to front. */
module Sequences {
  function Reverse<T>(s: seq<T>): seq<T> { if s == [] then [] else Reverse(s[1..]) + [s[0]] }
}
