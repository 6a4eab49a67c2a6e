/**
 * The authentication routing of the root layout: a `navReady` latch that
 * opens once the navigation container reports a state key, and a guard
 * that, once the latch is open, sends a signed-out user to the auth screen
 * and a signed-in user out of it. React, the router and the auth store are
 * abstracted to the values they feed the two effects on each commit.
 */
module RootLayout {
  import opened Wrappers

  /** The two targets of `router.replace`. */
  datatype Route = AuthRoute | TabsRoute

  function RoutePath(r: Route): string {
    match r
    case AuthRoute => "/auth"
    case TabsRoute => "/(tabs)"
  }

  /** The route segments the router reports after replacing to `r`. */
  function SegmentsOf(r: Route): seq<string> {
    match r
    case AuthRoute => ["auth"]
    case TabsRoute => ["(tabs)"]
  }

  /** `segments[0] === 'auth'`; an empty segment list reads `undefined`. */
  predicate IsInAuth(segments: seq<string>) {
    |segments| > 0 && segments[0] == "auth"
  }

  /** The state the guard aims for: a signed-in user outside the auth
      screen, or a signed-out user on it. */
  predicate Settled(hasUser: bool, segments: seq<string>) {
    hasUser != IsInAuth(segments)
  }

  /** The redirect effect: nothing until navigation is ready; then a
      signed-out user outside `auth` goes to `/auth` and a signed-in user
      inside `auth` goes to `/(tabs)`. With navigation ready, no redirect is
      issued exactly when the screen already suits the user, and a redirect
      always lands on a screen that does. */
  function Redirect(navReady: bool, hasUser: bool, segments: seq<string>): (r: Option<Route>)
    ensures !navReady ==> r == None
    ensures navReady ==> (r == None <==> Settled(hasUser, segments))
    ensures r.Some? ==> Settled(hasUser, SegmentsOf(r.value))
  {
    if !navReady then None
    else
      var isInAuth := IsInAuth(segments);
      if !hasUser && !isInAuth then Some(AuthRoute)
      else if hasUser && isInAuth then Some(TabsRoute)
      else None
  }

  /** `rootNavigationState?.key` is truthy: present and not empty. */
  predicate KeyPresent(key: Option<string>) {
    key.Some? && key.value != ""
  }

  /** The latch effect: `navReady` is set when a key is present and is
      never cleared. */
  function NextNavReady(navReady: bool, key: Option<string>): (r: bool)
    ensures navReady ==> r
    ensures r ==> navReady || KeyPresent(key)
    ensures KeyPresent(key) ==> r
  {
    navReady || KeyPresent(key)
  }

  /** What one commit of the layout sees. */
  datatype Observation = Observation(key: Option<string>, hasUser: bool, segments: seq<string>)

  /** One commit: the tree renders only once navigation is ready; both
      effects read the `navReady` captured at render, so a key first seen
      in this commit opens the latch for the next commit only. */
  datatype Commit = Commit(renders: bool, redirect: Option<Route>, navReady: bool)

  function Step(navReady: bool, o: Observation): (c: Commit)
    ensures c.renders == navReady
    ensures c.redirect.Some? ==> navReady
    ensures navReady ==> (c.redirect.None? <==> Settled(o.hasUser, o.segments))
    ensures c.redirect.Some? ==> Settled(o.hasUser, SegmentsOf(c.redirect.value))
    ensures c.navReady == NextNavReady(navReady, o.key)
  {
    Commit(navReady, Redirect(navReady, o.hasUser, o.segments), NextNavReady(navReady, o.key))
  }

  /** `navReady` after a sequence of commits, starting from `false`. */
  function NavReadyAfter(obs: seq<Observation>): bool {
    if obs == [] then false else NextNavReady(NavReadyAfter(obs[..|obs| - 1]), obs[|obs| - 1].key)
  }

  /** The redirects issued over a sequence of commits, one per commit. */
  function Redirects(obs: seq<Observation>): (rs: seq<Option<Route>>)
    ensures |rs| == |obs|
  {
    if obs == [] then []
    else
      var init := obs[..|obs| - 1];
      Redirects(init) + [Step(NavReadyAfter(init), obs[|obs| - 1]).redirect]
  }

  /** The latch is open after a run exactly when some commit of the run saw
      a navigation key. */
  lemma {:induction false} NavReadyAfterIff(obs: seq<Observation>)
    ensures NavReadyAfter(obs) <==> exists i :: 0 <= i < |obs| && KeyPresent(obs[i].key)
  {
    if obs != [] {
      var init := obs[..|obs| - 1];
      NavReadyAfterIff(init);
      if NavReadyAfter(init) {
        var i :| 0 <= i < |init| && KeyPresent(init[i].key);
        assert obs[i] == init[i];
      }
      if exists i :: 0 <= i < |obs| && KeyPresent(obs[i].key) {
        var i :| 0 <= i < |obs| && KeyPresent(obs[i].key);
        if i < |init| {
          assert init[i] == obs[i];
        }
      }
    }
  }

  /** The latch is never reset: extending a run keeps it open. */
  lemma {:induction false} NavReadyMonotone(obs: seq<Observation>, more: seq<Observation>)
    requires NavReadyAfter(obs)
    ensures NavReadyAfter(obs + more)
    decreases |more|
  {
    if more != [] {
      var all := obs + more;
      assert all[..|all| - 1] == obs + more[..|more| - 1];
      NavReadyMonotone(obs, more[..|more| - 1]);
    } else {
      assert obs + more == obs;
    }
  }

  /** No commit redirects unless an earlier commit saw a navigation key;
      in particular the first commit never redirects. */
  lemma {:induction false} NoRedirectBeforeKey(obs: seq<Observation>, i: int)
    requires 0 <= i < |obs|
    requires Redirects(obs)[i].Some?
    ensures exists j :: 0 <= j < i && KeyPresent(obs[j].key)
  {
    var init := obs[..|obs| - 1];
    if i < |init| {
      assert Redirects(obs)[i] == Redirects(init)[i];
      NoRedirectBeforeKey(init, i);
      var j :| 0 <= j < i && KeyPresent(init[j].key);
      assert obs[j] == init[j];
    } else {
      assert NavReadyAfter(init);
      NavReadyAfterIff(init);
      var j :| 0 <= j < |init| && KeyPresent(init[j].key);
      assert obs[j] == init[j];
    }
  }

  /** The redirect of commit `i` is the guard's decision under the latch
      value the first `i` commits left behind. */
  lemma {:induction false} RedirectsAt(obs: seq<Observation>, i: int)
    requires 0 <= i < |obs|
    ensures Redirects(obs)[i] == Step(NavReadyAfter(obs[..i]), obs[i]).redirect
    decreases |obs|
  {
    var init := obs[..|obs| - 1];
    if i < |init| {
      assert Redirects(obs)[i] == Redirects(init)[i];
      RedirectsAt(init, i);
      assert init[..i] == obs[..i];
    }
  }

  /** Commit `i` of a run redirects exactly when an earlier commit saw a
      navigation key and the screen does not suit the user; the redirect
      then lands on a screen that does. */
  lemma {:induction false} RedirectsIff(obs: seq<Observation>, i: int)
    requires 0 <= i < |obs|
    ensures Redirects(obs)[i].Some? <==>
      (exists j :: 0 <= j < i && KeyPresent(obs[j].key)) && !Settled(obs[i].hasUser, obs[i].segments)
    ensures Redirects(obs)[i].Some? ==>
      Settled(obs[i].hasUser, SegmentsOf(Redirects(obs)[i].value))
  {
    RedirectsAt(obs, i);
    var pre := obs[..i];
    NavReadyAfterIff(pre);
    if exists j :: 0 <= j < i && KeyPresent(obs[j].key) {
      var j :| 0 <= j < i && KeyPresent(obs[j].key);
      assert pre[j] == obs[j];
    }
    if NavReadyAfter(pre) {
      var j :| 0 <= j < |pre| && KeyPresent(pre[j].key);
      assert pre[j] == obs[j];
    }
  }

  /** The decision table with navigation ready: a signed-out user is sent
      to `/auth` unless already in `auth`; a signed-in user is sent to
      `/(tabs)` only from `auth`; nothing else navigates. */
  lemma {:induction false} RedirectTable(segments: seq<string>)
    ensures Redirect(true, false, segments)
      == (if IsInAuth(segments) then None else Some(AuthRoute))
    ensures Redirect(true, true, segments)
      == (if IsInAuth(segments) then Some(TabsRoute) else None)
    ensures RoutePath(AuthRoute) == "/auth" && RoutePath(TabsRoute) == "/(tabs)"
  {
  }

  /** After a redirect, once the router reports the segments of its target,
      the guard stays quiet. */
  lemma {:induction false} RedirectSettles(hasUser: bool, segments: seq<string>)
    ensures Redirect(true, hasUser, segments).Some? ==>
      Redirect(true, hasUser, SegmentsOf(Redirect(true, hasUser, segments).value)) == None
  {
  }
}
