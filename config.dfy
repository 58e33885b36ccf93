/// The start-up checks of src/pserver.c (lines 176-184): the port range and
/// the choice of scheduling policy.
module Config {
  import opened Requests

  const MinPort: int := 1024
  const MaxPort: int := 65535

  /// The settings the server runs with once its arguments are accepted.
  datatype Settings = Settings(port: int, policy: Policy)

  /// `tolower` in the C locale: only the ASCII capitals change.
  function ToLower(c: char): char
  {
    if 'A' <= c <= 'Z' then (c as int + 32) as char else c
  }

  /// `strcasecmp(a, b) == 0`.
  function EqualsIgnoreCase(a: seq<char>, b: seq<char>): bool
  {
    |a| == |b| && forall i :: 0 <= i < |a| ==> ToLower(a[i]) == ToLower(b[i])
  }

  /// The spellings of the policy name that select smallest-file-first.
  const SffSpellings: set<seq<char>> := {"SFF", "SFf", "SfF", "Sff", "sFF", "sFf", "sfF", "sff"}

  /// The policy named by the `-s` argument: SFF in any letter case,
  /// FIFO for anything else (the default "FIFO" included).
  function ParsePolicy(name: seq<char>): (p: Policy)
    ensures p == SFF <==> name in SffSpellings
  {
    if EqualsIgnoreCase(name, "SFF") then
      assert |name| == 3 ==> name == [name[0], name[1], name[2]];
      SFF
    else FIFO
  }

  /// Accepts the port and policy arguments; `None` stands for the usage
  /// error on which the server exits.
  function Configure(port: int, schedalg: seq<char>): (r: Option<Settings>)
    ensures r.None? <==> port < MinPort || MaxPort < port
    ensures r.Some? ==> r.value.port == port && 0 < r.value.port < 0x1_0000
    ensures r.Some? ==> (r.value.policy == SFF <==> schedalg in SffSpellings)
  {
    if port < MinPort || port > MaxPort then None
    else Some(Settings(port, ParsePolicy(schedalg)))
  }
}
