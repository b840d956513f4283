/** When an index agrees with a collection of files: each message it holds is one file, and it
    shows of that file what is to be seen. Which files there are, and how they are named, is
    left open here. */
module Agreement {
  import opened Text
  import opened Maildir
  import opened Events
  import opened Indexer

  /** What the index should show of a file. */
  datatype View = View(message: Message, flags: seq<MessageFlag>, meta: Meta)

  /** The index entry shows the file; with `headers`, its header data as well. */
  predicate Displays(d: Data, m: Message, v: View, headers: bool) {
    v.message == m && v.flags == d.flags && (headers ==> v.meta == d.meta)
  }

  /** Two views look alike in the index. */
  predicate Alike(v: View, w: View, headers: bool) {
    v.message == w.message && v.flags == w.flags && (headers ==> v.meta == w.meta)
  }

  /** The index shows exactly the files, `home` telling which file a message is. */
  ghost predicate AgreeAt<P(!new)>(views: map<P, View>, a: Abstract, headers: bool, home: map<Message, P>) {
    && home.Keys == a.Keys
    && (forall m :: m in a ==> home[m] in views && Displays(a[m], m, views[home[m]], headers))
    && (forall p :: p in views ==> views[p].message in a && home[views[p].message] == p)
  }

  ghost predicate Agree<P(!new)>(views: map<P, View>, a: Abstract, headers: bool) {
    exists home :: AgreeAt(views, a, headers, home)
  }

  /** The views of the files that have one. */
  function ShownOf<P(!new), C(!new)>(files: map<P, C>, view: (P, C) -> Option<View>): map<P, View> {
    map p | p in files && view(p, files[p]).Some? :: view(p, files[p]).value
  }

  /** One view set or, if there is nothing to see, removed. */
  function SetView<P>(views: map<P, View>, p: P, v: Option<View>): map<P, View> {
    match v case None => views - {p} case Some(view) => views[p := view]
  }

  lemma ShownAfterSet<P(!new), C(!new)>(files: map<P, C>, view: (P, C) -> Option<View>, p: P, content: C)
    ensures ShownOf(files[p := content], view) == SetView(ShownOf(files, view), p, view(p, content))
  {
  }

  lemma ShownAfterRemove<P(!new), C(!new)>(files: map<P, C>, view: (P, C) -> Option<View>, p: P)
    ensures ShownOf(files - {p}, view) == ShownOf(files, view) - {p}
  {
  }

  lemma NothingToRemove<K, V>(m: map<K, V>, k: K)
    requires k !in m
    ensures m - {k} == m
  {
  }

  // ----- One file per shown message -----

  /** A shown file is the only one of its message; `names` says which message a path names. */
  ghost predicate Singular<P(!new)>(paths: set<P>, views: map<P, View>, names: P -> Option<Message>) {
    forall p, q :: p in paths && q in views && names(p) == Some(views[q].message) ==> p == q
  }

  /** No other file is this message, unless neither is shown. */
  ghost predicate AloneIn<P(!new)>(paths: set<P>, views: map<P, View>, names: P -> Option<Message>, p: P, shown: bool) {
    forall q :: q in paths && q != p && names(p).Some? && names(q) == names(p) ==> q !in views && !shown
  }

  /** The views belong to the files and to the messages that their paths name. */
  ghost predicate Named<P(!new)>(paths: set<P>, views: map<P, View>, names: P -> Option<Message>) {
    forall q :: q in views ==> q in paths && names(q) == Some(views[q].message)
  }

  /** Setting one file keeps that exactly if no other file is its message. */
  lemma SingularSet<P(!new)>(paths: set<P>, views: map<P, View>, names: P -> Option<Message>, p: P, v: Option<View>)
    requires Singular(paths, views, names) && Named(paths, views, names)
    requires v.Some? ==> names(p) == Some(v.value.message)
    ensures Singular(paths + {p}, SetView(views, p, v), names) <==> AloneIn(paths, views, names, p, v.Some?)
  {
    var paths', views' := paths + {p}, SetView(views, p, v);
    assert forall q :: q in views && q != p ==> q in views' && views'[q] == views[q];
    assert v.Some? ==> p in views' && views'[p] == v.value;
    if Singular(paths', views', names) {
      forall q | q in paths && q != p && names(p).Some? && names(q) == names(p)
        ensures q !in views && v.None?
      {
      }
    }
    if AloneIn(paths, views, names, p, v.Some?) {
      forall q, r | q in paths' && r in views' && names(q) == Some(views'[r].message)
        ensures q == r
      {
        assert r != p ==> r in views && views'[r] == views[r] && r in paths;
      }
    }
  }

  lemma SingularLess<P(!new)>(paths: set<P>, views: map<P, View>, names: P -> Option<Message>, p: P)
    requires Singular(paths, views, names)
    ensures Singular(paths - {p}, views - {p}, names)
  {
  }

  /** A shown file is alone. */
  lemma SingularAlone<P(!new)>(paths: set<P>, views: map<P, View>, names: P -> Option<Message>, p: P)
    requires Singular(paths, views, names) && Named(paths, views, names) && p in paths
    ensures AloneIn(paths, views, names, p, p in views)
  {
  }

  /** The index after a flag change. */
  function Reflagged(a: Abstract, m: Message, flags: seq<MessageFlag>): Abstract {
    if m in a then a[m := a[m].(flags := flags)] else a
  }

  lemma SameFlags(a: Abstract, m: Message, flags: seq<MessageFlag>)
    requires m in a ==> a[m].flags == flags
    ensures Reflagged(a, m, flags) == a
  {
  }

  lemma LastFlagsPrevail(a: Abstract, m: Message, before: seq<MessageFlag>, after: seq<MessageFlag>)
    ensures Reflagged(Reflagged(a, m, before), m, after) == Reflagged(a, m, after)
  {
  }

  // ----- Changes of one file -----

  lemma AgreeAdd<P(!new)>(views: map<P, View>, a: Abstract, headers: bool, p: P, v: View, d: Data)
    requires Agree(views, a, headers) && p !in views && v.message !in a && Displays(d, v.message, v, headers)
    ensures Agree(views[p := v], a[v.message := d], headers)
  {
    var home :| AgreeAt(views, a, headers, home);
    assert AgreeAt(views[p := v], a[v.message := d], headers, home[v.message := p]);
  }

  lemma AgreeReplace<P(!new)>(views: map<P, View>, a: Abstract, headers: bool, p: P, v: View)
    requires Agree(views, a, headers) && p in views && Alike(v, views[p], headers)
    ensures Agree(views[p := v], a, headers)
  {
    var home :| AgreeAt(views, a, headers, home);
    ReplacedAt(views, a, headers, p, v, home);
  }

  lemma ReplacedAt<P(!new)>(views: map<P, View>, a: Abstract, headers: bool, p: P, v: View, home: map<Message, P>)
    requires AgreeAt(views, a, headers, home) && p in views && Alike(v, views[p], headers)
    ensures AgreeAt(views[p := v], a, headers, home)
  {
    var views' := views[p := v];
    forall m | m in a
      ensures home[m] in views' && Displays(a[m], m, views'[home[m]], headers)
    {
      assert home[m] == p ==> Displays(a[m], m, views[p], headers);
    }
  }

  lemma AgreeRemove<P(!new)>(views: map<P, View>, a: Abstract, headers: bool, p: P)
    requires Agree(views, a, headers) && p in views
    ensures Agree(views - {p}, a - {views[p].message}, headers)
  {
    var home :| AgreeAt(views, a, headers, home);
    assert AgreeAt(views - {p}, a - {views[p].message}, headers, home - {views[p].message});
  }

  lemma AgreeMove<P(!new)>(views: map<P, View>, a: Abstract, headers: bool, from: P, to: P, after: View)
    requires Agree(views, a, headers) && from in views && (to in views ==> to == from)
    requires after.message == views[from].message && after.meta == views[from].meta
    ensures after.message in a
    ensures Agree((views - {from})[to := after], Reflagged(a, after.message, after.flags), headers)
  {
    var home :| AgreeAt(views, a, headers, home);
    MovedAt(views, a, headers, from, to, after, home);
  }

  lemma MovedAt<P(!new)>(views: map<P, View>, a: Abstract, headers: bool, from: P, to: P, after: View,
                  home: map<Message, P>)
    requires AgreeAt(views, a, headers, home) && from in views && (to in views ==> to == from)
    requires after.message == views[from].message && after.meta == views[from].meta
    ensures after.message in a
    ensures AgreeAt((views - {from})[to := after], Reflagged(a, after.message, after.flags), headers,
                    home[after.message := to])
  {
    var m, views', home' := after.message, (views - {from})[to := after], home[after.message := to];
    var a' := Reflagged(a, m, after.flags);
    assert home[m] == from && m in a;
    forall n | n in a'
      ensures home'[n] in views' && Displays(a'[n], n, views'[home'[n]], headers)
    {
      if n != m {
        assert home[n] in views && views[home[n]].message == n && home[n] != from && home[n] != to;
      }
    }
  }

  // ----- What agreement says -----

  lemma AgreeObservations<P(!new)>(views: map<P, View>, a: Abstract, headers: bool)
    requires Agree(views, a, headers)
    ensures forall p :: p in views ==>
      views[p].message in a && Displays(a[views[p].message], views[p].message, views[p], headers)
    ensures forall p, q :: p in views && q in views && views[p].message == views[q].message ==> p == q
    ensures forall m :: m in a ==> exists p :: p in views && views[p].message == m
  {
    var home :| AgreeAt(views, a, headers, home);
    forall m | m in a
      ensures exists p :: p in views && views[p].message == m
    {
      assert home[m] in views && views[home[m]].message == m;
    }
  }

  /** An index that agrees with two collections shows a file they share alike. */
  lemma SharedFileIsAlike<P(!new)>(views: map<P, View>, views': map<P, View>, a: Abstract, headers: bool, p: P)
    requires Agree(views, a, headers) && Agree(views', a, headers) && p in views && p in views'
    requires views[p].message == views'[p].message
    ensures Alike(views[p], views'[p], headers)
  {
    AgreeObservations(views, a, headers);
    AgreeObservations(views', a, headers);
  }

  /** A message that was added was not there before and is there now. */
  lemma AddedIsNew<P(!new)>(views: map<P, View>, a: Abstract, a': Abstract, headers: bool, p: P, v: View)
    requires Agree(views, a, headers) && Agree(views[p := v], a', headers) && p !in views
    ensures v.message !in a && v.message in a'
  {
    AgreeObservations(views, a, headers);
    AgreeObservations(views[p := v], a', headers);
    var views' := views[p := v];
    assert views'[p] == v && forall q :: q in views ==> q in views' && views'[q] == views[q];
  }

  /** A file whose message the index does not hold. */
  lemma MissedFile<P(!new)>(views: map<P, View>, a: Abstract, headers: bool, p: P)
    requires p in views && views[p].message !in a
    ensures !Agree(views, a, headers)
  {
    if Agree(views, a, headers) {
      AgreeObservations(views, a, headers);
    }
  }

  /** An index that held the file no longer agrees when the file is gone. */
  lemma LostFile<P(!new)>(views: map<P, View>, a: Abstract, headers: bool, p: P)
    requires Agree(views, a, headers) && p in views
    ensures !Agree(views - {p}, a, headers)
  {
    AgreeObservations(views, a, headers);
    if Agree(views - {p}, a, headers) {
      AgreeObservations(views - {p}, a, headers);
    }
  }
}
