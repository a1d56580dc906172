/**
 * The `remote build` task module: the text framing of the build's QR code
 * (`_createQrCode`), the platform check of `build` and the sub-command check
 * of `run`. The QR encoder itself is abstract: a module count `n` and an
 * `isDark(i, j)` predicate.
 */
module Remote {
  import opened Text
  import opened Registry
  import opened Resolver
  import opened Dispatch

  /** The colour of one printed block (a pair of U+2588 characters). */
  datatype Shade = White | Black

  datatype Token = Block(shade: Shade) | Newline

  /** Quiet-zone width in blocks on every side. */
  const Margin: nat := 2

  /** The shade the framing puts at row `r`, column `c` of the printed square. */
  function ShadeAt(n: nat, isDark: (nat, nat) -> bool, r: int, c: int): Shade {
    if Margin <= r < n + Margin && Margin <= c < n + Margin && isDark(r - Margin, c - Margin) then Black else White
  }

  /** One printed row: `n + 4` blocks and a line break. */
  function Row(n: nat, isDark: (nat, nat) -> bool, r: nat): (row: seq<Token>)
    ensures |row| == n + 2 * Margin + 1
    ensures forall c :: 0 <= c < n + 2 * Margin ==> row[c] == Block(ShadeAt(n, isDark, r, c))
    ensures row[n + 2 * Margin] == Newline
  {
    seq(n + 2 * Margin, c => Block(ShadeAt(n, isDark, r, c))) + [Newline]
  }

  /** The first `k` printed rows. */
  function Rows(n: nat, isDark: (nat, nat) -> bool, k: nat): (s: seq<Token>)
    ensures |s| == k * (n + 2 * Margin + 1)
  {
    if k == 0 then [] else Rows(n, isDark, k - 1) + Row(n, isDark, k - 1)
  }

  /** The whole framed code: `n + 4` rows. */
  function QrText(n: nat, isDark: (nat, nat) -> bool): (t: seq<Token>)
    ensures |t| == (n + 2 * Margin) * (n + 2 * Margin + 1)
  {
    Rows(n, isDark, n + 2 * Margin)
  }

  /** Position of row `r`, column `c` in the printed text. */
  function Offset(n: nat, r: nat, c: nat): nat {
    r * (n + 2 * Margin + 1) + c
  }

  lemma {:induction false} RowsAt(n: nat, isDark: (nat, nat) -> bool, k: nat, r: nat, c: nat)
    requires r < k && c <= n + 2 * Margin
    ensures Offset(n, r, c) < |Rows(n, isDark, k)|
    ensures Rows(n, isDark, k)[Offset(n, r, c)] == Row(n, isDark, r)[c]
    decreases k
  {
    var w := n + 2 * Margin + 1;
    if r < k - 1 {
      RowsAt(n, isDark, k - 1, r, c);
    } else {
      assert Offset(n, r, c) == (k - 1) * w + c;
    }
  }

  /**
   * The framed code has `n + 4` rows of `n + 4` blocks, each row ending in a
   * line break; module (i, j) is black exactly when `isDark(i, j)`, and the
   * two-block border all round is white.
   */
  lemma QrLayout(n: nat, isDark: (nat, nat) -> bool)
    ensures |QrText(n, isDark)| == (n + 4) * (n + 5)
    ensures forall r, c :: 0 <= r < n + 4 && 0 <= c <= n + 4 ==>
      && Offset(n, r, c) < |QrText(n, isDark)|
      && QrText(n, isDark)[Offset(n, r, c)] == if c < n + 4 then Block(ShadeAt(n, isDark, r, c)) else Newline
    ensures forall i, j :: 0 <= i < n && 0 <= j < n ==>
      (ShadeAt(n, isDark, i + 2, j + 2) == Black <==> isDark(i, j))
    ensures forall r, c :: (r < 2 || r >= n + 2 || c < 2 || c >= n + 2) ==> ShadeAt(n, isDark, r, c) == White
  {
    forall r, c | 0 <= r < n + 4 && 0 <= c <= n + 4
      ensures Offset(n, r, c) < |QrText(n, isDark)| && QrText(n, isDark)[Offset(n, r, c)] == Row(n, isDark, r)[c]
    {
      RowsAt(n, isDark, n + 4, r, c);
    }
  }

  lemma RowPrefixStep(n: nat, isDark: (nat, nat) -> bool, r: nat, c: nat)
    requires c < n + 2 * Margin
    ensures Row(n, isDark, r)[..c + 1] == Row(n, isDark, r)[..c] + [Block(ShadeAt(n, isDark, r, c))]
  {
  }

  lemma RowEnd(n: nat, isDark: (nat, nat) -> bool, r: nat)
    ensures Row(n, isDark, r)[..n + 2 * Margin] + [Newline] == Row(n, isDark, r)
  {
  }

  /** One block of row `r`, column `c`, appended after the columns before it. */
  lemma BlockStep(n: nat, isDark: (nat, nat) -> bool, r: nat, c: nat, str0: seq<Token>, str: seq<Token>)
    requires c < n + 2 * Margin && str == str0 + Row(n, isDark, r)[..c]
    ensures str + [Block(ShadeAt(n, isDark, r, c))] == str0 + Row(n, isDark, r)[..c + 1]
  {
    RowPrefixStep(n, isDark, r, c);
  }

  /** A row of the top or bottom quiet zone: `n + 4` white blocks. */
  method BandRow(n: nat, isDark: (nat, nat) -> bool, r: nat, str0: seq<Token>) returns (str: seq<Token>)
    requires r < Margin || n + Margin <= r
    ensures str == str0 + Row(n, isDark, r)
  {
    str := str0;
    for j := 0 to n + 2 * Margin
      invariant str == str0 + Row(n, isDark, r)[..j]
    {
      BlockStep(n, isDark, r, j, str0, str);
      str := str + [Block(White)];
    }
    RowEnd(n, isDark, r);
    str := str + [Newline];
  }

  /** Module row `i`: two white blocks, the `n` modules, two white blocks. */
  method ModuleRow(n: nat, isDark: (nat, nat) -> bool, i: nat, str0: seq<Token>) returns (str: seq<Token>)
    requires i < n
    ensures str == str0 + Row(n, isDark, i + Margin)
  {
    var r := i + Margin;
    str := str0;
    for j := 0 to Margin
      invariant str == str0 + Row(n, isDark, r)[..j]
    {
      BlockStep(n, isDark, r, j, str0, str);
      str := str + [Block(White)];
    }
    for j := 0 to n
      invariant str == str0 + Row(n, isDark, r)[..j + Margin]
    {
      BlockStep(n, isDark, r, j + Margin, str0, str);
      if isDark(i, j) {
        str := str + [Block(Black)];
      } else {
        str := str + [Block(White)];
      }
    }
    for j := 0 to Margin
      invariant str == str0 + Row(n, isDark, r)[..j + n + Margin]
    {
      BlockStep(n, isDark, r, j + n + Margin, str0, str);
      str := str + [Block(White)];
    }
    RowEnd(n, isDark, r);
    str := str + [Newline];
  }

  /**
   * `_createQrCode`: a white band of two rows, then each module row between
   * two white blocks on either side, then another white band, every row
   * closed by a line break.
   */
  method CreateQrCode(n: nat, isDark: (nat, nat) -> bool) returns (str: seq<Token>)
    ensures str == QrText(n, isDark)
  {
    str := [];
    for i := 0 to Margin
      invariant str == Rows(n, isDark, i)
    {
      str := BandRow(n, isDark, i, str);
    }
    for i := 0 to n
      invariant str == Rows(n, isDark, i + Margin)
    {
      str := ModuleRow(n, isDark, i, str);
    }
    for i := 0 to Margin
      invariant str == Rows(n, isDark, i + n + Margin)
    {
      str := BandRow(n, isDark, i + n + Margin, str);
    }
  }

  const Platforms: seq<string> := ["ios", "android", "winrt"]

  const InvalidPlatformMessage: string := "Invalid platform. Must be one of: " + Join(Platforms, ", ")

  lemma InvalidPlatformText()
    ensures InvalidPlatformMessage == "Invalid platform. Must be one of: ios, android, winrt"
  {
    assert Platforms[..2][..1] == ["ios"];
    assert Platforms[..2] == ["ios", "android"];
    JoinPair("ios", "android", ", ");
  }

  /** `build`'s guard: `argv._[2]` must be one of the listed platforms. */
  function CheckPlatform(words: seq<string>): (r: Result<string, string>)
    ensures r.Success? <==> |words| > 2 && (words[2] == "ios" || words[2] == "android" || words[2] == "winrt")
    ensures r.Success? ==> r.value == words[2]
    ensures r.Failure? ==> r.error == InvalidPlatformMessage
  {
    if |words| > 2 && words[2] in Platforms then Success(words[2]) else Failure(InvalidPlatformMessage)
  }

  const SignInMessage := "Must be signed in to use this command."
  const NoSuchCommandMessage := "No such command."

  /** How `RemoteTask.run` ends: ignored, failed with exit status 1, or on to the upload. */
  datatype RemoteOutcome = Ignored | Failed(message: string) | Upload(platform: string)

  /**
   * `RemoteTask.run` up to the SDK calls: `isMyTask` and the outcome of
   * `relogin` are inputs; after signing in, the second word must be `build`,
   * and then `build` checks the platform.
   */
  function RemoteRun(isMyTask: string -> bool, signedIn: bool, taskName: string, words: seq<string>): (r: RemoteOutcome)
    ensures r.Upload? ==> isMyTask(taskName) && signedIn && |words| > 2 && r.platform == words[2] && r.platform in Platforms
  {
    if !isMyTask(taskName) then Ignored
    else if !signedIn then Failed(SignInMessage)
    else if !(|words| > 1 && words[1] == "build") then Failed(NoSuchCommandMessage)
    else match CheckPlatform(words)
      case Success(p) => Upload(p)
      case Failure(m) => Failed(m)
  }

  /**
   * The upload starts only for this module's task, signed in, with `build` as
   * the second word and a listed platform as the third; anything else either
   * ignores the call or fails with its own message.
   */
  lemma RemoteRunOutcomes(isMyTask: string -> bool, signedIn: bool, taskName: string, words: seq<string>)
    ensures RemoteRun(isMyTask, signedIn, taskName, words) == Ignored <==> !isMyTask(taskName)
    ensures RemoteRun(isMyTask, signedIn, taskName, words).Upload? <==>
      isMyTask(taskName) && signedIn && |words| > 2 && words[1] == "build" && words[2] in Platforms
    ensures RemoteRun(isMyTask, signedIn, taskName, words).Upload? ==>
      RemoteRun(isMyTask, signedIn, taskName, words).platform == words[2]
    ensures isMyTask(taskName) && !signedIn ==> RemoteRun(isMyTask, signedIn, taskName, words) == Failed(SignInMessage)
    ensures isMyTask(taskName) && signedIn && !(|words| > 1 && words[1] == "build") ==>
      RemoteRun(isMyTask, signedIn, taskName, words) == Failed(NoSuchCommandMessage)
    ensures isMyTask(taskName) && signedIn && |words| > 1 && words[1] == "build" && !(|words| > 2 && words[2] in Platforms) ==>
      RemoteRun(isMyTask, signedIn, taskName, words) == Failed(InvalidPlatformMessage)
  {
  }

  /**
   * The `--browser` exemption leads nowhere: whenever `run` dispatches
   * `remote build` with fewer than three words it was because of `--browser`,
   * and the task, once signed in, then fails (on the platform, or on the
   * sub-command when the name was reached through an alias).
   */
  lemma BrowserBuildFails(reg: Registry, a: Argv, isMyTask: string -> bool)
    requires Decide(reg, a).Run? && Decide(reg, a).name == "remote build"
    requires |a.words| < 3
    ensures a.browser
    ensures RemoteRun(isMyTask, true, "remote build", a.words).Failed? || !isMyTask("remote build")
  {
    ResolvedOutcomes(reg, a);
  }

  /**
   * Typed in full, `remote build <platform> ...` is dispatched to the task
   * `remote build` whenever the word `remote` alone names no task and the two
   * words first match that task in a named group; with a listed platform the
   * task, signed in, then reaches the upload.
   */
  lemma RemoteBuildRuns(reg: Registry, g: nat, t: nat, a: Argv, isMyTask: string -> bool)
    requires Lookup(reg, "remote").None?
    requires IsFirstMatch(reg, "remote build", g, t)
    requires reg[g].1[t].0 == "remote build" && reg[g].0 != ""
    requires |a.words| >= 3 && a.words[0] == "remote" && a.words[1] == "build"
    requires !a.version && !a.v && !a.help && !a.h
    ensures Decide(reg, a) == Run("remote build", reg[g].0)
    ensures isMyTask("remote build") && a.words[2] in Platforms ==>
      RemoteRun(isMyTask, true, Decide(reg, a).name, a.words) == Upload(a.words[2])
  {
    assert IsCleanWord("remote") && IsCleanWord("build");
    assert a.words[0] + " " + a.words[1] == "remote build";
    ResolveTwoWords(reg, g, t, a.words);
  }
}
