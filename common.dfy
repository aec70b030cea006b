/**
 * C-level vocabulary shared by the shell model: optional values (a `char *`
 * that may be NULL), C strings and NULL-terminated argument vectors.
 */
module Common {

  datatype Option<T> = None | Some(value: T)

  /** A C string holds no NUL character: its length is its `strlen`. */
  predicate NoNul(s: string) {
    forall k :: 0 <= k < |s| ==> s[k] != '\0'
  }

  /**
   * What `strdup(&buf[start])` copies when `s` is `buf[start..]`: the
   * characters before the first NUL. The result is the longest NUL-free
   * prefix of `s`.
   */
  function CString(s: string): (r: string)
    ensures NoNul(r) && r <= s
    ensures |r| < |s| ==> s[|r|] == '\0'
    ensures NoNul(s) ==> r == s
  {
    if s == [] || s[0] == '\0' then [] else [s[0]] + CString(s[1..])
  }

  /** `strdup` of a buffer whose first NUL follows the NUL-free prefix `p` copies exactly `p`. */
  lemma CStringOf(s: string, p: string)
    requires p <= s && NoNul(p) && |p| < |s| && s[|p|] == '\0'
    ensures CString(s) == p
  {
    if p != [] {
      CStringOf(s[1..], p[1..]);
    }
  }

  /** A `char **` argument vector: some slot holds the NULL terminator. */
  predicate Terminated(a: seq<Option<string>>) {
    exists k :: 0 <= k < |a| && a[k] == None
  }

  /**
   * The arguments a `char **` vector presents to its reader (`execvp`, a
   * built-in, a `for (i = 0; args[i] != NULL; i++)` loop): the strings in
   * front of the first NULL.
   */
  function Argv(a: seq<Option<string>>): (r: seq<string>)
    ensures |r| <= |a|
    ensures forall k :: 0 <= k < |r| ==> a[k] == Some(r[k])
    ensures |r| < |a| ==> a[|r|] == None
  {
    if a == [] || a[0] == None then [] else [a[0].value] + Argv(a[1..])
  }

  /** Every slot in front of `f` holds a string and slot `f` is NULL: `Argv` stops exactly at `f`. */
  lemma ArgvStopsAt(a: seq<Option<string>>, f: nat)
    requires f < |a| && a[f] == None
    requires forall k :: 0 <= k < f ==> a[k].Some?
    ensures |Argv(a)| == f
    ensures forall k :: 0 <= k < f ==> Argv(a)[k] == a[k].value
  {
  }

  /** The NULL-terminated vector holding `words`. */
  function Vector(words: seq<string>): (a: seq<Option<string>>)
    ensures Terminated(a) && Argv(a) == words && |a| == |words| + 1
  {
    var a := seq(|words|, k requires 0 <= k < |words| => Some(words[k])) + [None];
    ArgvStopsAt(a, |words|);
    a
  }
}
