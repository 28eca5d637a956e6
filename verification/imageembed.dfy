/**
 Image download, deduplication and reference rewriting (`downloadImage`,
 `downloadImages`, `changeRefs`, `embedImages` in epubgen/epub.go).

 Network, filesystem and container calls are oracles. The staging area is
 the set of file paths that exist; the dedup registry (the `downloads`
 map) is a plain map threaded through the calls in the order they run.
 */
module ImageEmbed {
  import opened GoLib
  import opened Html
  import opened Extract

  /** Image `src` to the container reference `AddImage` returned for it. */
  type Registry = map<string, string>

  /** Entries of `before` are all kept, unchanged, in `after`. */
  predicate Extends(before: Registry, after: Registry)
  {
    forall k :: k in before ==> k in after && after[k] == before[k]
  }

  /** One `http.Get`: a transport error, or a response with its status. */
  datatype GetOutcome = TransportError(msg: string) | Response(status: int)

  /** The download loop's failure test: `err != nil || StatusCode != 200`. */
  predicate GetFailed(g: GetOutcome)
  {
    g.TransportError? || g.status != 200
  }

  /** The `err` of a failed `http.Get`: nil when a response came back. */
  function GetErr(g: GetOutcome): GoError
  {
    if g.TransportError? then Error(g.msg) else Nil
  }

  const MaxGetAttempts: nat := 3

  /** The external answers to one `downloadImage` call: the k-th `http.Get`,
      then `os.Create`, `io.Copy`, and the `os.Remove` that follows a failed
      copy. */
  datatype DownloadOracle = DownloadOracle(get: nat -> GetOutcome, create: GoError, copy: GoError, remove: GoError)

  /** What `downloadImage` returns, with the number of `http.Get` calls and
      the staging area afterwards. */
  datatype Downloaded = Downloaded(path: string, err: GoError, gets: nat, staged: set<string>)

  /** The `for` loop around `http.Get` from attempt `attempts` on: the number
      of the attempt it left at. */
  function GetAttempts(get: nat -> GetOutcome, attempts: nat): (n: nat)
    requires 1 <= attempts <= MaxGetAttempts
    ensures attempts <= n <= MaxGetAttempts
    ensures forall k :: attempts <= k < n ==> GetFailed(get(k))
    ensures n < MaxGetAttempts ==> !GetFailed(get(n))
    decreases MaxGetAttempts - attempts
  {
    if GetFailed(get(attempts)) && attempts < MaxGetAttempts then GetAttempts(get, attempts + 1)
    else attempts
  }

  /** `downloadImage`: skipped without any network call when the target file
      exists; otherwise at most three GETs. Exhausting them returns an empty
      path with the last GET's error, which is nil when that GET got a
      non-200 response. After a good GET, the `os.Create` error or else the
      `io.Copy` error is returned with an empty path; a partly copied file is
      removed, and stays staged when that removal fails, since its error is
      ignored. When both succeed the file is staged and its path returned. */
  function DownloadImage(url: string, filename: string, tmpFolder: string, staged: set<string>,
                         o: DownloadOracle): (r: Downloaded)
    ensures var filePath := JoinPath(tmpFolder, filename);
      && (filePath in staged ==> r == Downloaded(filePath, Nil, 0, staged))
      && (filePath !in staged ==>
            && 1 <= r.gets <= MaxGetAttempts
            && (forall k :: 1 <= k < r.gets ==> GetFailed(o.get(k)))
            && (r.gets < MaxGetAttempts ==> !GetFailed(o.get(r.gets))))
      && (filePath !in staged && GetFailed(o.get(r.gets)) ==>
            r.path == "" && r.err == GetErr(o.get(MaxGetAttempts)) && r.staged == staged)
      && (filePath !in staged && !GetFailed(o.get(r.gets)) ==>
            && r.err == (if o.create != Nil then o.create else o.copy)
            && (r.err == Nil ==> r.path == filePath && r.staged == staged + {filePath})
            && (r.err != Nil ==> r.path == "")
            && (r.err != Nil && (o.create != Nil || o.remove == Nil) ==> r.staged == staged)
            && (r.err != Nil && o.create == Nil && o.remove != Nil ==> r.staged == staged + {filePath}))
      && (r.path == "" || r.path == filePath)
      && (r.path == filePath <==> r.err == Nil && filePath in r.staged)
      && (r.path == "" && r.err == Nil <==>
            filePath !in staged && r.gets == MaxGetAttempts && o.get(MaxGetAttempts).Response?
            && o.get(MaxGetAttempts).status != 200)
      && (r.staged == staged || r.staged == staged + {filePath})
  {
    var filePath := JoinPath(tmpFolder, filename);
    if filePath in staged then
      Downloaded(filePath, Nil, 0, staged)
    else
      var n := GetAttempts(o.get, 1);
      var g := o.get(n);
      if GetFailed(g) then Downloaded("", GetErr(g), n, staged)
      else if o.create != Nil then Downloaded("", o.create, n, staged)
      else if o.copy != Nil then Downloaded("", o.copy, n, if o.remove == Nil then staged else staged + {filePath})
      else Downloaded(filePath, Nil, n, staged + {filePath})
  }

  /** A server that keeps answering with a non-200 status: three GETs, then
      an empty path and a nil error, and nothing staged. */
  lemma PersistentBadStatusIsSilent(url: string, filename: string, tmpFolder: string, staged: set<string>,
                                    o: DownloadOracle)
    requires JoinPath(tmpFolder, filename) !in staged
    requires forall k :: 1 <= k <= MaxGetAttempts ==> o.get(k).Response? && o.get(k).status != 200
    ensures DownloadImage(url, filename, tmpFolder, staged, o) == Downloaded("", Nil, MaxGetAttempts, staged)
  {
  }

  /** A copy that fails and a removal that fails too leave the partial file
      staged: the next `downloadImage` of that name skips the download and
      returns the partial file's path with a nil error. */
  lemma PartialFileIsReused(url: string, filename: string, tmpFolder: string, staged: set<string>,
                            o: DownloadOracle, next: DownloadOracle)
    requires JoinPath(tmpFolder, filename) !in staged
    requires o.get(1) == Response(200) && o.create == Nil && o.copy != Nil && o.remove != Nil
    ensures var d := DownloadImage(url, filename, tmpFolder, staged, o);
      && d == Downloaded("", o.copy, 1, staged + {JoinPath(tmpFolder, filename)})
      && DownloadImage(url, filename, tmpFolder, d.staged, next) == Downloaded(JoinPath(tmpFolder, filename), Nil, 0, d.staged)
  {
  }

  /** One `AddImage` return. */
  datatype AddResult = AddResult(ref: string, err: GoError)

  /** The external answers to one round of `downloadImages`' retry loop. */
  datatype Round = Round(download: DownloadOracle, add: AddResult)

  /** Round r (1, 2, 3) of `downloadImages` for one `<img>`. */
  type ImageOracle = nat -> Round

  /** A round succeeded: the download returned no error, and neither did
      `AddImage` on its path. */
  predicate RoundOk(d: Downloaded, rd: Round)
  {
    d.err == Nil && rd.add.err == Nil
  }

  /** The retry loop's result: the stored reference, if any, the staging
      area, and one `downloadImage` result per round run. */
  datatype Rounds = Rounds(stored: Option<string>, staged: set<string>, trace: seq<Downloaded>)

  /** `trace` is what the rounds from `retry` on download: each round fetches
      `src` as `name` into the staging area the round before it left, with the
      oracle of its own round number. */
  ghost predicate RoundsFollow(src: string, name: string, tmpFolder: string, staged: set<string>,
                               oracle: ImageOracle, retry: nat, trace: seq<Downloaded>)
    decreases |trace|
  {
    || |trace| == 0
    || (&& trace[0] == DownloadImage(src, name, tmpFolder, staged, oracle(retry).download)
        && RoundsFollow(src, name, tmpFolder, trace[0].staged, oracle, retry + 1, trace[1..]))
  }

  /** `RoundsFollow` position by position: round k downloads into the staging
      area round k - 1 left, with the oracle of round `retry + k`. */
  lemma {:induction false} RoundsFollowAt(src: string, name: string, tmpFolder: string, staged: set<string>,
                                          oracle: ImageOracle, retry: nat, trace: seq<Downloaded>, k: nat)
    requires RoundsFollow(src, name, tmpFolder, staged, oracle, retry, trace)
    requires k < |trace|
    ensures trace[k] == DownloadImage(src, name, tmpFolder, if k == 0 then staged else trace[k - 1].staged,
                                      oracle(retry + k).download)
    decreases k
  {
    if k > 0 {
      RoundsFollowAt(src, name, tmpFolder, trace[0].staged, oracle, retry + 1, trace[1..], k - 1);
      assert trace[1..][k - 1] == trace[k];
      if k > 1 {
        assert trace[1..][k - 2] == trace[k - 1];
      }
    }
  }

  /** `downloadImages`' retry loop from round `retry` on: round k downloads
      into the staging area the previous round left, and the loop stops at
      the first round whose download and `AddImage` both succeed, or after
      round 3. */
  function RetryRounds(src: string, name: string, tmpFolder: string, staged: set<string>,
                       oracle: ImageOracle, retry: nat): (r: Rounds)
    requires 1 <= retry <= MaxGetAttempts
    ensures 1 <= |r.trace| <= MaxGetAttempts - retry + 1
    ensures RoundsFollow(src, name, tmpFolder, staged, oracle, retry, r.trace)
    ensures r.staged == r.trace[|r.trace| - 1].staged
    ensures forall k :: 0 <= k < |r.trace| - 1 ==> !RoundOk(r.trace[k], oracle(retry + k))
    ensures r.stored.Some? <==> RoundOk(r.trace[|r.trace| - 1], oracle(retry + |r.trace| - 1))
    ensures r.stored.Some? ==> r.stored.value == oracle(retry + |r.trace| - 1).add.ref
    ensures r.stored.None? ==> retry + |r.trace| - 1 == MaxGetAttempts
    ensures forall k :: 0 <= k < |r.trace| ==> r.trace[k].gets <= MaxGetAttempts
    ensures staged <= r.staged <= staged + {JoinPath(tmpFolder, name)}
    decreases MaxGetAttempts - retry
  {
    var rd := oracle(retry);
    var d := DownloadImage(src, name, tmpFolder, staged, rd.download);
    if RoundOk(d, rd) then
      Rounds(Some(rd.add.ref), d.staged, [d])
    else if retry == MaxGetAttempts then
      Rounds(None, d.staged, [d])
    else
      var rest := RetryRounds(src, name, tmpFolder, d.staged, oracle, retry + 1);
      var trace := [d] + rest.trace;
      assert trace[1..] == rest.trace;
      Rounds(rest.stored, rest.staged, trace)
  }

  /** The effect of `downloadImages` on one `<img>`. */
  datatype ImageStep = ImageStep(registry: Registry, staged: set<string>, rounds: seq<Downloaded>)

  /** `downloadImages`: an `<img>` without `src`, or whose `src` is already
      registered, costs no download. Otherwise at most three rounds of
      download plus `AddImage`, each round downloading `src` under the name
      `hash(src)`; `src` is registered, to the reference of the round that
      succeeded, exactly when one did. No other entry changes. */
  function DownloadImages(attrs: Attrs, registry: Registry, staged: set<string>, tmpFolder: string,
                          hash: string -> string, oracle: ImageOracle): (r: ImageStep)
    ensures ("src" !in attrs || attrs["src"] in registry) ==> r == ImageStep(registry, staged, [])
    ensures |r.rounds| <= MaxGetAttempts
    ensures Extends(registry, r.registry)
    ensures r.registry.Keys <= registry.Keys + (if "src" in attrs then {attrs["src"]} else {})
    ensures r.registry != registry ==>
              && "src" in attrs && attrs["src"] !in registry
              && 1 <= |r.rounds|
              && RoundOk(r.rounds[|r.rounds| - 1], oracle(|r.rounds|))
              && r.registry == registry[attrs["src"] := oracle(|r.rounds|).add.ref]
    ensures "src" in attrs && attrs["src"] !in registry ==>
              var src := attrs["src"];
              && 1 <= |r.rounds|
              && RoundsFollow(src, hash(src), tmpFolder, staged, oracle, 1, r.rounds)
              && (forall k :: 0 <= k < |r.rounds| - 1 ==> !RoundOk(r.rounds[k], oracle(k + 1)))
              && (r.registry != registry <==> RoundOk(r.rounds[|r.rounds| - 1], oracle(|r.rounds|)))
              && r.staged == r.rounds[|r.rounds| - 1].staged
    ensures "src" in attrs && attrs["src"] !in registry && r.registry == registry ==>
              |r.rounds| == MaxGetAttempts
              && forall k :: 0 <= k < |r.rounds| ==> !RoundOk(r.rounds[k], oracle(k + 1))
    ensures staged <= r.staged
    ensures "src" in attrs ==> r.staged <= staged + {JoinPath(tmpFolder, hash(attrs["src"]))}
  {
    if "src" !in attrs || attrs["src"] in registry then
      ImageStep(registry, staged, [])
    else
      var src := attrs["src"];
      var rr := RetryRounds(src, hash(src), tmpFolder, staged, oracle, 1);
      match rr.stored
      case Some(ref) => ImageStep(registry[src := ref], rr.staged, rr.trace)
      case None => ImageStep(registry, rr.staged, rr.trace)
  }

  /** The silent failure of `downloadImage` is not caught: its empty path is
      handed to `AddImage`, and if that call succeeds the `src` is registered
      after a single round. */
  lemma EmptyPathReachesAddImage(attrs: Attrs, registry: Registry, staged: set<string>, tmpFolder: string,
                                 hash: string -> string, oracle: ImageOracle)
    requires "src" in attrs && attrs["src"] !in registry
    requires JoinPath(tmpFolder, hash(attrs["src"])) !in staged
    requires forall k :: 1 <= k <= MaxGetAttempts ==>
               oracle(1).download.get(k).Response? && oracle(1).download.get(k).status != 200
    requires oracle(1).add.err == Nil
    ensures var r := DownloadImages(attrs, registry, staged, tmpFolder, hash, oracle);
      && |r.rounds| == 1 && r.rounds[0].path == "" && r.rounds[0].err == Nil
      && r.registry == registry[attrs["src"] := oracle(1).add.ref]
  {
  }

  /** `changeRefs`: lazy-loading and responsive-source hints are always
      removed; `src` is pointed at the registered reference when there is
      one and left alone otherwise; no other attribute changes. */
  function ChangeRefs(attrs: Attrs, registry: Registry): (r: Attrs)
    ensures "loading" !in r && "srcset" !in r
    ensures r.Keys == attrs.Keys - {"loading", "srcset"}
    ensures forall k :: k in attrs && k != "loading" && k != "srcset" && k != "src" ==> r[k] == attrs[k]
    ensures "src" in attrs && attrs["src"] in registry ==> r["src"] == registry[attrs["src"]]
    ensures "src" in attrs && attrs["src"] !in registry ==> r["src"] == attrs["src"]
  {
    var a := attrs - {"loading", "srcset"};
    if "src" in a && a["src"] in registry then a["src" := registry[a["src"]]] else a
  }

  /** Rewriting twice is rewriting once, provided no registered reference is
      itself a registered `src`. */
  lemma ChangeRefsIdempotent(attrs: Attrs, registry: Registry)
    requires forall k :: k in registry ==> registry[k] !in registry
    ensures ChangeRefs(ChangeRefs(attrs, registry), registry) == ChangeRefs(attrs, registry)
  {
  }

  /** What happened at one node during the download phase. */
  datatype Visit = Visit(rounds: nat, stored: bool)

  const Untouched := Visit(0, false)

  /** The registry and staging area at one point of a run. */
  datatype Stage = Stage(registry: Registry, staged: set<string>)

  /** What one node's step `t` may do to stage `s`: the registry only grows,
      and only by the node's own `src`; a node without `src`, or whose `src`
      is already registered, is a no-op; a node whose `src` is still
      unregistered afterwards ran all three rounds. */
  ghost predicate StepOk(n: Node, s: Stage, t: ImageStep)
  {
    && Extends(s.registry, t.registry) && s.staged <= t.staged
    && t.registry.Keys <= s.registry.Keys + (if Src(n).Some? then {Src(n).value} else {})
    && |t.rounds| <= MaxGetAttempts
    && (Src(n).None? || Src(n).value in s.registry ==> t == ImageStep(s.registry, s.staged, []))
    && (t.registry != s.registry ==> Src(n).Some? && Src(n).value !in s.registry && Src(n).value in t.registry)
    && (Src(n).Some? && Src(n).value !in t.registry ==> t.registry == s.registry && |t.rounds| == MaxGetAttempts)
  }

  /** The download phase's callback on one node: `downloadImages` for an
      `<img>`, nothing for any other node. */
  function NodeStep(n: Node, s: Stage, tmpFolder: string, hash: string -> string, oracle: ImageOracle): (t: ImageStep)
    ensures StepOk(n, s, t)
  {
    if n.Img? then DownloadImages(n.attrs, s.registry, s.staged, tmpFolder, hash, oracle)
    else ImageStep(s.registry, s.staged, [])
  }

  /** Result of the download phase over a whole document: the final registry
      and staging area, what happened at each node, the stage in force before
      each node (`stages[j]`) and after the last (`stages[|doc|]`), and each
      node's step. */
  datatype Downloads = Downloads(registry: Registry, staged: set<string>, visits: seq<Visit>,
                                 stages: seq<Stage>, steps: seq<ImageStep>)

  /** `r` threads the stages through `doc`: step j starts from `stages[j]`,
      obeys `StepOk`, and leaves `stages[j + 1]`; the last stage is the
      result. */
  ghost predicate IsRun(doc: Doc, r: Downloads)
  {
    && |r.visits| == |doc| && |r.steps| == |doc| && |r.stages| == |doc| + 1
    && r.stages[|doc|] == Stage(r.registry, r.staged)
    && forall j {:trigger r.steps[j]} {:trigger r.visits[j]} :: 0 <= j < |doc| ==>
         && StepOk(doc[j], r.stages[j], r.steps[j])
         && r.stages[j + 1] == Stage(r.steps[j].registry, r.steps[j].staged)
         && r.visits[j] == Visit(|r.steps[j].rounds|, r.steps[j].registry != r.stages[j].registry)
  }

  /** The download phase's callback as a function value. */
  function Callback(tmpFolder: string, hash: string -> string): (Node, Stage, ImageOracle) -> ImageStep
  {
    (n: Node, s: Stage, o: ImageOracle) => NodeStep(n, s, tmpFolder, hash, o)
  }

  /** `steps` are what `step` does to `doc` from position `pos` on: each
      node's step is `step` on the stage in force before it, with the oracle
      of its own position. */
  ghost predicate StepsFollow(doc: Doc, pos: nat, step: (Node, Stage, ImageOracle) -> ImageStep,
                              oracles: nat -> ImageOracle, stages: seq<Stage>, steps: seq<ImageStep>)
    decreases |doc|
  {
    || |doc| == 0
    || (&& |stages| > 0 && |steps| > 0
        && steps[0] == step(doc[0], stages[0], oracles(pos))
        && StepsFollow(doc[1..], pos + 1, step, oracles, stages[1..], steps[1..]))
  }

  /** `StepsFollow` position by position: node j's step is `step` on stage j
      with oracle `oracles(pos + j)`. */
  lemma {:induction false} StepsFollowAt(doc: Doc, pos: nat, step: (Node, Stage, ImageOracle) -> ImageStep,
                                         oracles: nat -> ImageOracle, stages: seq<Stage>, steps: seq<ImageStep>,
                                         j: nat)
    requires StepsFollow(doc, pos, step, oracles, stages, steps)
    requires j < |doc|
    ensures j < |stages| && j < |steps|
    ensures steps[j] == step(doc[j], stages[j], oracles(pos + j))
    decreases j
  {
    if j > 0 {
      StepsFollowAt(doc[1..], pos + 1, step, oracles, stages[1..], steps[1..], j - 1);
      assert doc[1..][j - 1] == doc[j] && stages[1..][j - 1] == stages[j] && steps[1..][j - 1] == steps[j];
      assert (pos + 1) + (j - 1) == pos + j;
    }
  }

  /** Phase 1 of `embedImages`: `downloadImages` on every `<img>` in document
      order, starting from `registry` and `staged`; node j runs on the stage
      node j - 1 left, with oracle `oracles(pos + j)`. */
  function DownloadAll(doc: Doc, pos: nat, registry: Registry, staged: set<string>, tmpFolder: string,
                       hash: string -> string, oracles: nat -> ImageOracle): (r: Downloads)
    ensures IsRun(doc, r)
    ensures r.stages[0] == Stage(registry, staged)
    ensures StepsFollow(doc, pos, Callback(tmpFolder, hash), oracles, r.stages, r.steps)
    decreases |doc|
  {
    if doc == [] then
      Downloads(registry, staged, [], [Stage(registry, staged)], [])
    else
      var step := NodeStep(doc[0], Stage(registry, staged), tmpFolder, hash, oracles(pos));
      var rest := DownloadAll(doc[1..], pos + 1, step.registry, step.staged, tmpFolder, hash, oracles);
      var r := Downloads(rest.registry, rest.staged,
                         [Visit(|step.rounds|, step.registry != registry)] + rest.visits,
                         [Stage(registry, staged)] + rest.stages, [step] + rest.steps);
      RunCons(doc, Stage(registry, staged), step, rest, r);
      assert r.stages[1..] == rest.stages && r.steps[1..] == rest.steps;
      r
  }

  /** A run over the tail, preceded by one step of the head node, is a run
      over the whole document. */
  lemma RunCons(doc: Doc, head: Stage, step: ImageStep, rest: Downloads, r: Downloads)
    requires |doc| > 0 && IsRun(doc[1..], rest)
    requires StepOk(doc[0], head, step) && rest.stages[0] == Stage(step.registry, step.staged)
    requires r == Downloads(rest.registry, rest.staged,
                            [Visit(|step.rounds|, step.registry != head.registry)] + rest.visits,
                            [head] + rest.stages, [step] + rest.steps)
    ensures IsRun(doc, r)
  {
    forall j | 0 < j < |doc|
      ensures StepOk(doc[j], r.stages[j], r.steps[j])
    {
      assert doc[j] == doc[1..][j - 1];
    }
  }

  /** Along a run the registry and the staging area only grow. */
  lemma {:induction false} RunGrows(doc: Doc, r: Downloads, j: nat, k: nat)
    requires IsRun(doc, r)
    requires j <= k <= |doc|
    ensures Extends(r.stages[j].registry, r.stages[k].registry)
    ensures r.stages[j].staged <= r.stages[k].staged
    decreases k
  {
    if j < k {
      RunGrows(doc, r, j, k - 1);
      assert StepOk(doc[k - 1], r.stages[k - 1], r.steps[k - 1]);
    }
  }

  /** Every key a run adds was stored by a node carrying it as `src`. */
  lemma {:induction false} RunKeyOrigin(doc: Doc, r: Downloads, m: nat)
    requires IsRun(doc, r)
    requires m <= |doc|
    ensures forall key :: key in r.stages[m].registry && key !in r.stages[0].registry ==>
              exists j :: 0 <= j < m && r.visits[j].stored && Src(doc[j]) == Some(key)
    decreases m
  {
    if m > 0 {
      RunKeyOrigin(doc, r, m - 1);
      assert StepOk(doc[m - 1], r.stages[m - 1], r.steps[m - 1]);
      forall key | key in r.stages[m].registry && key !in r.stages[0].registry
        ensures exists j :: 0 <= j < m && r.visits[j].stored && Src(doc[j]) == Some(key)
      {
        if key !in r.stages[m - 1].registry {
          assert r.visits[m - 1].stored && Src(doc[m - 1]) == Some(key);
        }
      }
    }
  }

  /** Along a run, a node whose `src` is absent or already registered is
      skipped, a node that stores registers a new `src`, no node spends more
      than `MaxGetAttempts` rounds, and a node whose `src` is still
      unregistered at the end spent all `MaxGetAttempts` rounds on it. */
  lemma RunVisits(doc: Doc, r: Downloads, j: nat)
    requires IsRun(doc, r)
    requires j < |doc|
    ensures r.visits[j].rounds <= MaxGetAttempts
    ensures Src(doc[j]).None? || Src(doc[j]).value in r.stages[0].registry ==> r.visits[j] == Untouched
    ensures r.visits[j].stored ==>
              Src(doc[j]).Some? && Src(doc[j]).value !in r.stages[0].registry && Src(doc[j]).value in r.registry
    ensures Src(doc[j]).Some? && Src(doc[j]).value !in r.registry ==> r.visits[j].rounds == MaxGetAttempts
  {
    RunGrows(doc, r, 0, j);
    RunGrows(doc, r, j + 1, |doc|);
    assert StepOk(doc[j], r.stages[j], r.steps[j]);
  }

  /** Along a run, once a node stores a `src`, every later node with the same
      `src` is skipped. */
  lemma RunSkipsRepeats(doc: Doc, r: Downloads, j: nat, j': nat)
    requires IsRun(doc, r)
    requires j < j' < |doc| && r.visits[j].stored && Src(doc[j']) == Src(doc[j])
    ensures r.visits[j'] == Untouched
  {
    RunGrows(doc, r, j + 1, j');
    assert StepOk(doc[j], r.stages[j], r.steps[j]);
    assert StepOk(doc[j'], r.stages[j'], r.steps[j']);
  }

  /** The download phase deduplicates: an already-registered `src` is never
      downloaded; once one node registers a `src`, every later node with the
      same `src` is skipped; the registry only grows, and every new key was
      stored by a node of this document carrying it. A node whose `src` is
      still unregistered at the end went through `MaxGetAttempts` rounds, so
      a `src` that fails to register is tried again by every later node
      carrying it. */
  lemma DownloadAllDedup(doc: Doc, pos: nat, registry: Registry, staged: set<string>, tmpFolder: string,
                         hash: string -> string, oracles: nat -> ImageOracle)
    ensures var r := DownloadAll(doc, pos, registry, staged, tmpFolder, hash, oracles);
      && Extends(registry, r.registry)
      && staged <= r.staged
      && (forall k :: k in r.registry ==> k in registry || k in Srcs(doc))
      && (forall j :: 0 <= j < |doc| ==> r.visits[j].rounds <= MaxGetAttempts)
      && (forall j :: 0 <= j < |doc| && (Src(doc[j]).None? || Src(doc[j]).value in registry) ==>
            r.visits[j] == Untouched)
      && (forall j :: 0 <= j < |doc| && r.visits[j].stored ==>
            Src(doc[j]).Some? && Src(doc[j]).value !in registry && Src(doc[j]).value in r.registry)
      && (forall j :: 0 <= j < |doc| && Src(doc[j]).Some? && Src(doc[j]).value !in r.registry ==>
            r.visits[j].rounds == MaxGetAttempts)
      && (forall j, j' :: 0 <= j < j' < |doc| && r.visits[j].stored && Src(doc[j']) == Src(doc[j]) ==>
            r.visits[j'] == Untouched)
      && (forall k :: k in r.registry && k !in registry ==>
            exists j :: 0 <= j < |doc| && r.visits[j].stored && Src(doc[j]) == Some(k))
  {
    var r := DownloadAll(doc, pos, registry, staged, tmpFolder, hash, oracles);
    RunDedup(doc, r);
  }

  /** `DownloadAllDedup` for any run, stated against its first stage. */
  lemma RunDedup(doc: Doc, r: Downloads)
    requires IsRun(doc, r)
    ensures Extends(r.stages[0].registry, r.registry)
    ensures r.stages[0].staged <= r.staged
    ensures forall k :: k in r.registry ==> k in r.stages[0].registry || k in Srcs(doc)
    ensures forall j :: 0 <= j < |doc| ==> r.visits[j].rounds <= MaxGetAttempts
    ensures forall j :: 0 <= j < |doc| && (Src(doc[j]).None? || Src(doc[j]).value in r.stages[0].registry) ==>
              r.visits[j] == Untouched
    ensures forall j :: 0 <= j < |doc| && r.visits[j].stored ==>
              Src(doc[j]).Some? && Src(doc[j]).value !in r.stages[0].registry && Src(doc[j]).value in r.registry
    ensures forall j :: 0 <= j < |doc| && Src(doc[j]).Some? && Src(doc[j]).value !in r.registry ==>
              r.visits[j].rounds == MaxGetAttempts
    ensures forall j, j' :: 0 <= j < j' < |doc| && r.visits[j].stored && Src(doc[j']) == Src(doc[j]) ==>
              r.visits[j'] == Untouched
    ensures forall k :: k in r.registry && k !in r.stages[0].registry ==>
              exists j :: 0 <= j < |doc| && r.visits[j].stored && Src(doc[j]) == Some(k)
  {
    RunGrows(doc, r, 0, |doc|);
    RunKeyOrigin(doc, r, |doc|);
    forall k | k in r.registry && k !in r.stages[0].registry
      ensures k in Srcs(doc)
    {
      var j :| 0 <= j < |doc| && r.visits[j].stored && Src(doc[j]) == Some(k);
    }
    forall j | 0 <= j < |doc|
      ensures r.visits[j].rounds <= MaxGetAttempts
      ensures Src(doc[j]).None? || Src(doc[j]).value in r.stages[0].registry ==> r.visits[j] == Untouched
      ensures r.visits[j].stored ==>
                Src(doc[j]).Some? && Src(doc[j]).value !in r.stages[0].registry && Src(doc[j]).value in r.registry
      ensures Src(doc[j]).Some? && Src(doc[j]).value !in r.registry ==> r.visits[j].rounds == MaxGetAttempts
    {
      RunVisits(doc, r, j);
    }
    forall j, j' | 0 <= j < j' < |doc| && r.visits[j].stored && Src(doc[j']) == Src(doc[j])
      ensures r.visits[j'] == Untouched
    {
      RunSkipsRepeats(doc, r, j, j');
    }
  }

  /** Phase 2 of `embedImages`: `changeRefs` on every `<img>`; other nodes
      are left as they are. */
  function RewriteAll(doc: Doc, registry: Registry): (r: Doc)
    ensures |r| == |doc|
    ensures forall j :: 0 <= j < |doc| && doc[j].Markup? ==> r[j] == doc[j]
    ensures forall j :: 0 <= j < |doc| && doc[j].Img? ==> r[j] == Img(ChangeRefs(doc[j].attrs, registry))
    ensures forall j :: 0 <= j < |doc| && doc[j].Img? ==>
              r[j].Img? && "loading" !in r[j].attrs && "srcset" !in r[j].attrs
    ensures forall j :: 0 <= j < |doc| && Src(doc[j]).Some? && Src(doc[j]).value in registry ==>
              Src(r[j]) == Some(registry[Src(doc[j]).value])
    ensures forall j :: 0 <= j < |doc| && Src(doc[j]).Some? && Src(doc[j]).value !in registry ==>
              Src(r[j]) == Src(doc[j])
  {
    seq(|doc|, j requires 0 <= j < |doc| =>
      if doc[j].Img? then Img(ChangeRefs(doc[j].attrs, registry)) else doc[j])
  }

  /** One return of the serialiser, `doc.Html()`. */
  datatype Rendered = Rendered(html: string, err: GoError)

  type Renderer = Doc -> Rendered

  /** The effect of `embedImages` on one article. */
  datatype Embedded = Embedded(article: Article, registry: Registry, staged: set<string>, visits: seq<Visit>)

  /** `embedImages`: the download phase over every `<img>` completes before
      the rewrite phase starts, so every `<img>` whose `src` is registered
      once downloads are over points at that registered reference, and one
      whose `src` is still unregistered then keeps its remote `src`. An
      `<img>` whose own rounds all failed is still rewritten when a later
      `<img>` with the same `src` registered it. The node tree is
      rewritten in place; the article's content becomes the serialised tree
      unless serialisation fails, in which case it is kept. */
  function EmbedImages(a: Article, registry: Registry, staged: set<string>, tmpFolder: string,
                       hash: string -> string, oracles: nat -> ImageOracle, render: Renderer): (r: Embedded)
    ensures r.article.title == a.title
    ensures |r.article.node| == |a.node| && |r.visits| == |a.node|
    ensures Extends(registry, r.registry)
    ensures staged <= r.staged
    ensures forall k :: k in r.registry ==> k in registry || k in Srcs(a.node)
    ensures forall j :: 0 <= j < |a.node| && a.node[j].Markup? ==> r.article.node[j] == a.node[j]
    ensures forall j :: 0 <= j < |a.node| && a.node[j].Img? ==>
              && r.article.node[j].Img?
              && "loading" !in r.article.node[j].attrs && "srcset" !in r.article.node[j].attrs
    ensures forall j :: 0 <= j < |a.node| && Src(a.node[j]).Some? && Src(a.node[j]).value in r.registry ==>
              Src(r.article.node[j]) == Some(r.registry[Src(a.node[j]).value])
    ensures forall j :: 0 <= j < |a.node| && Src(a.node[j]).Some? && Src(a.node[j]).value !in r.registry ==>
              Src(r.article.node[j]) == Src(a.node[j])
    ensures forall j :: 0 <= j < |a.node| && (Src(a.node[j]).None? || Src(a.node[j]).value in registry) ==>
              r.visits[j] == Untouched
    ensures forall j, j' :: 0 <= j < j' < |a.node| && r.visits[j].stored && Src(a.node[j']) == Src(a.node[j]) ==>
              r.visits[j'] == Untouched
    ensures var d := DownloadAll(a.node, 0, registry, staged, tmpFolder, hash, oracles);
              r.registry == d.registry && r.staged == d.staged && r.visits == d.visits
              && r.article.node == RewriteAll(a.node, d.registry)
    ensures render(r.article.node).err == Nil ==> r.article.content == render(r.article.node).html
    ensures render(r.article.node).err != Nil ==> r.article.content == a.content
  {
    DownloadAllDedup(a.node, 0, registry, staged, tmpFolder, hash, oracles);
    var downloads := DownloadAll(a.node, 0, registry, staged, tmpFolder, hash, oracles);
    var doc := RewriteAll(a.node, downloads.registry);
    var out := render(doc);
    var content := if out.err == Nil then out.html else a.content;
    Embedded(Article(a.title, content, doc), downloads.registry, downloads.staged, downloads.visits)
  }

  /** Two `<img>` of one article with the same `src`: at most one of them
      registers it, and once registered both point at the same reference. */
  lemma RepeatedImageRegisteredOnce(a: Article, registry: Registry, staged: set<string>, tmpFolder: string,
                                    hash: string -> string, oracles: nat -> ImageOracle, render: Renderer,
                                    j: nat, j': nat)
    requires j < j' < |a.node|
    requires Src(a.node[j]).Some? && Src(a.node[j']) == Src(a.node[j])
    ensures var r := EmbedImages(a, registry, staged, tmpFolder, hash, oracles, render);
      && !(r.visits[j].stored && r.visits[j'].stored)
      && (Src(a.node[j]).value in r.registry ==> Src(r.article.node[j]) == Src(r.article.node[j']))
  {
  }

  /** An `<img>` whose `src` is still unregistered once `embedImages` is over
      went through every `downloadImage` plus `AddImage` round for it: a
      `src` that fails to register costs each node carrying it all its
      rounds, since nothing records the failure. A round whose file is
      already staged makes no GET, so this counts rounds, not downloads. */
  lemma FailedImageRetriedByEachNode(a: Article, registry: Registry, staged: set<string>, tmpFolder: string,
                                     hash: string -> string, oracles: nat -> ImageOracle, render: Renderer,
                                     j: nat)
    requires j < |a.node| && Src(a.node[j]).Some?
    ensures var r := EmbedImages(a, registry, staged, tmpFolder, hash, oracles, render);
      Src(a.node[j]).value !in r.registry ==> r.visits[j].rounds == MaxGetAttempts
  {
    DownloadAllDedup(a.node, 0, registry, staged, tmpFolder, hash, oracles);
  }

  /** Why the rewrite is a second phase: when a later `<img>` with the same
      `src` registers it, an earlier `<img>` points at that reference too,
      even though its own rounds all failed. */
  lemma LaterRegistrationRewritesEarlierImage(a: Article, registry: Registry, staged: set<string>,
                                              tmpFolder: string, hash: string -> string,
                                              oracles: nat -> ImageOracle, render: Renderer, j: nat, j': nat)
    requires j < j' < |a.node|
    requires Src(a.node[j]).Some? && Src(a.node[j']) == Src(a.node[j])
    ensures var r := EmbedImages(a, registry, staged, tmpFolder, hash, oracles, render);
      r.visits[j'].stored ==>
        && !r.visits[j].stored
        && Src(a.node[j]).value in r.registry
        && Src(r.article.node[j]) == Some(r.registry[Src(a.node[j]).value])
        && Src(r.article.node[j]) == Src(r.article.node[j'])
  {
    var d := DownloadAll(a.node, 0, registry, staged, tmpFolder, hash, oracles);
    if d.visits[j'].stored {
      RunVisits(a.node, d, j');
      if d.visits[j].stored {
        RunSkipsRepeats(a.node, d, j, j');
      }
    }
  }

  /** A batch of articles after image embedding, with the stage in force
      before each article (`stages[i]`) and after the last. */
  datatype Batch = Batch(articles: seq<Article>, registry: Registry, staged: set<string>, stages: seq<Stage>)

  /** `embedImages` as a function value over a stage, for stating the
      batch order below without unfolding it. */
  function Embedder(tmpFolder: string, hash: string -> string, render: Renderer)
    : (Article, Stage, nat -> ImageOracle) -> Embedded
  {
    (a: Article, s: Stage, o: nat -> ImageOracle) => EmbedImages(a, s.registry, s.staged, tmpFolder, hash, o, render)
  }

  /** The first `n` outputs are `embed` of the first `n` articles, in index
      order: article i is embedded on the stage article i - 1 left, with its
      own oracles `images(i)`, and leaves stage i + 1. */
  ghost predicate EmbedsFollow(articles: seq<Article>, n: nat, embed: (Article, Stage, nat -> ImageOracle) -> Embedded,
                               images: nat -> nat -> ImageOracle, stages: seq<Stage>, outs: seq<Article>)
    requires n <= |articles| && n < |stages| && n <= |outs|
  {
    forall i {:trigger embed(articles[i], stages[i], images(i))} :: 0 <= i < n ==>
      var e := embed(articles[i], stages[i], images(i));
      outs[i] == e.article && stages[i + 1] == Stage(e.registry, e.staged)
  }

  /** Embedding one more article extends the batch order by one. */
  lemma EmbedsSnoc(articles: seq<Article>, n: nat, embed: (Article, Stage, nat -> ImageOracle) -> Embedded,
                   images: nat -> nat -> ImageOracle, stages: seq<Stage>, outs: seq<Article>, e: Embedded)
    requires n < |articles| && |stages| == n + 1 && |outs| == n
    requires EmbedsFollow(articles, n, embed, images, stages, outs)
    requires e == embed(articles[n], stages[n], images(n))
    ensures EmbedsFollow(articles, n + 1, embed, images, stages + [Stage(e.registry, e.staged)], outs + [e.article])
  {
    var stages', outs' := stages + [Stage(e.registry, e.staged)], outs + [e.article];
    forall i | 0 <= i < n + 1
      ensures var d := embed(articles[i], stages'[i], images(i));
              outs'[i] == d.article && stages'[i + 1] == Stage(d.registry, d.staged)
    {
      assert stages'[i] == stages[i] && outs'[i] == if i < n then outs[i] else e.article;
      if i < n {
        assert stages'[i + 1] == stages[i + 1];
      }
    }
  }

  /** Embeds article `n` on the stage the first `n` left. */
  method EmbedNext(articles: seq<Article>, n: nat, tmpFolder: string, hash: string -> string,
                   images: nat -> nat -> ImageOracle, render: Renderer, stages: seq<Stage>, outs: seq<Article>)
    returns (outs': seq<Article>, stages': seq<Stage>)
    requires n < |articles| && |outs| == n && |stages| == n + 1
    requires EmbedsFollow(articles, n, Embedder(tmpFolder, hash, render), images, stages, outs)
    ensures |outs'| == n + 1 && |stages'| == n + 2 && outs'[..n] == outs && stages'[..n + 1] == stages
    ensures EmbedsFollow(articles, n + 1, Embedder(tmpFolder, hash, render), images, stages', outs')
    ensures outs'[n].title == articles[n].title && |outs'[n].node| == |articles[n].node|
    ensures Extends(stages[n].registry, stages'[n + 1].registry) && stages[n].staged <= stages'[n + 1].staged
  {
    var e := EmbedImages(articles[n], stages[n].registry, stages[n].staged, tmpFolder, hash, images(n), render);
    EmbedsSnoc(articles, n, Embedder(tmpFolder, hash, render), images, stages, outs, e);
    outs', stages' := outs + [e.article], stages + [Stage(e.registry, e.staged)];
  }

  /** `embedImages` over every article, one after another in index order,
      sharing one registry and staging area; article i draws its answers
      from `images(i)`. Titles and node counts are preserved and no registry
      entry is ever overwritten. */
  method EmbedAll(articles: seq<Article>, registry: Registry, staged: set<string>, tmpFolder: string,
                  hash: string -> string, images: nat -> nat -> ImageOracle, render: Renderer)
    returns (batch: Batch)
    ensures |batch.articles| == |articles| && |batch.stages| == |articles| + 1
    ensures batch.stages[0] == Stage(registry, staged)
    ensures batch.stages[|articles|] == Stage(batch.registry, batch.staged)
    ensures EmbedsFollow(articles, |articles|, Embedder(tmpFolder, hash, render), images, batch.stages, batch.articles)
    ensures forall i :: 0 <= i < |articles| ==>
              batch.articles[i].title == articles[i].title && |batch.articles[i].node| == |articles[i].node|
    ensures Extends(registry, batch.registry)
    ensures staged <= batch.staged
  {
    var outs: seq<Article> := [];
    var stages := [Stage(registry, staged)];
    for i := 0 to |articles|
      invariant |outs| == i && |stages| == i + 1 && stages[0] == Stage(registry, staged)
      invariant EmbedsFollow(articles, i, Embedder(tmpFolder, hash, render), images, stages, outs)
      invariant forall k :: 0 <= k < i ==>
                  outs[k].title == articles[k].title && |outs[k].node| == |articles[k].node|
      invariant Extends(registry, stages[i].registry) && staged <= stages[i].staged
    {
      outs, stages := EmbedNext(articles, i, tmpFolder, hash, images, render, stages, outs);
    }
    batch := Batch(outs, stages[|articles|].registry, stages[|articles|].staged, stages);
  }
}
