/** Matching a path against a route template with variables in braces: the text before
    a variable is passed over, its value goes as far as the character that follows it in
    the template, and a last variable takes all the rest. */
module Router {
  import opened Wrappers

  datatype Error = NoMatch | NoClosingBrace

  type Params = map<string, string>

  function IndexOf(s: string, c: char): (r: Option<nat>)
    ensures r.Some? ==> r.value < |s| && s[r.value] == c && c !in s[..r.value]
    ensures r.None? ==> c !in s
  {
    if s == "" then None
    else if s[0] == c then Some(0)
    else match IndexOf(s[1..], c)
      case Some(i) => assert s[..i + 1] == [s[0]] + s[1..][..i]; Some(i + 1)
      case None => None
  }

  /** `slice(0, n)` and `slice(n)`, which accept any `n`. */
  function Take(s: string, n: nat): string { if n <= |s| then s[..n] else s }

  function Drop(s: string, n: nat): string { if n <= |s| then s[n..] else "" }

  predicate StartsWithSlash(s: string) { s != "" && s[0] == '/' }

  predicate EndsWithSlash(s: string) { s != "" && s[|s| - 1] == '/' }

  function AppendSlash(s: string): string { if EndsWithSlash(s) then s else s + "/" }

  /** The value of a variable that ends the template; one slash at the end is dropped. */
  function LastValue(s: string): Option<string> {
    if StartsWithSlash(s) then None else Some(if EndsWithSlash(s) then s[..|s| - 1] else s)
  }

  /** The value of a variable before the character `next`. */
  function ValueBefore(s: string, next: char): string {
    match IndexOf(s, next)
    case Some(i) => s[..i]
    case None => s
  }

  /** What one step of the match comes to; `Bound` also gives what is left to match. */
  datatype Head =
    | Finished
    | Unmatched(error: Error)
    | Bound(name: string, value: string, template: string, path: string)

  function MatchHead(template: string, path: string): (h: Head)
    ensures h.Bound? ==> |h.template| < |template|
  {
    if template == "" then Finished
    else match IndexOf(template, '{')
      case None => if AppendSlash(template) == AppendSlash(path) then Finished else Unmatched(NoMatch)
      case Some(start) =>
        if !(Take(path, start) <= template[..start]) then Unmatched(NoMatch)
        else
          var rest := Drop(path, start);
          match IndexOf(template[start..], '}')
          case None => Unmatched(NoClosingBrace)
          case Some(length) =>
            var end := start + length;
            var prop := template[start + 1..end];
            if end == |template| - 1 then
              (match LastValue(rest)
               case None => Unmatched(NoMatch)
               case Some(value) => Bound(prop, value, "", ""))
            else
              var value := ValueBefore(rest, template[end + 1]);
              Bound(prop, value, template[end + 1..], rest[|value|..])
  }

  /** Match what is left of the path against what is left of the template; each step
      uses up at least a variable of the template. */
  function MatchFrom(template: string, path: string, found: Params): Result<Params, Error>
    decreases |template|
  {
    match MatchHead(template, path)
    case Finished => Success(found)
    case Unmatched(error) => Failure(error)
    case Bound(name, value, rest, left) => MatchFrom(rest, left, found[name := value])
  }

  function GetParamsFromPath(routePath: string, path: string): Result<Params, Error> {
    MatchFrom(routePath, path, map[])
  }

  // ----- Routes and the paths they stand for -----

  /** Literal text up to a variable, again and again, and literal text at the end. */
  datatype Route = End(text: string) | Segment(text: string, name: string, rest: Route)

  function Template(route: Route): string {
    match route
    case End(text) => text
    case Segment(text, name, rest) => text + "{" + name + "}" + Template(rest)
  }

  function Names(route: Route): set<string> {
    match route
    case End(_) => {}
    case Segment(_, name, rest) => {name} + Names(rest)
  }

  /** The path with values in place of the variables. */
  function Path(route: Route, values: Params): string
    requires Names(route) <= values.Keys
  {
    match route
    case End(text) => text
    case Segment(text, name, rest) => text + values[name] + Path(rest, values)
  }

  /** Variables are distinct and have text between them. */
  predicate Separated(route: Route) {
    match route
    case End(text) => '{' !in text
    case Segment(text, name, rest) =>
      && '{' !in text && '}' !in name && name !in Names(rest)
      && (rest.Segment? ==> rest.text != "")
      && Separated(rest)
  }

  /** Each value avoids the character that follows it in the template; one that ends
      the path neither starts nor ends with a slash. */
  predicate Clear(route: Route, values: Params)
    requires Names(route) <= values.Keys
  {
    match route
    case End(_) => true
    case Segment(_, name, rest) =>
      && (if rest.text == "" then !StartsWithSlash(values[name]) && !EndsWithSlash(values[name])
          else rest.text[0] !in values[name])
      && Clear(rest, values)
  }

  /** The values of the route's variables. */
  function Of(route: Route, values: Params): Params
    requires Names(route) <= values.Keys
  {
    map n | n in Names(route) :: values[n]
  }

  lemma IndexAt(before: string, c: char, after: string)
    requires c !in before
    ensures IndexOf(before + [c] + after, c) == Some(|before|)
  {
    var s := before + [c] + after;
    assert s[|before|] == c;
    forall k | |before| < k <= |s| ensures c in s[..k] {
      assert s[..k][|before|] == c;
    }
    forall k | 0 <= k < |before| ensures s[k] != c {
      assert s[k] == before[k];
    }
  }

  /** Where the braces of the first variable are, and what is around them. */
  lemma TemplateParts(route: Route)
    requires route.Segment? && Separated(route)
    ensures var template, start := Template(route), |route.text|;
            var end := start + 1 + |route.name|;
            && IndexOf(template, '{') == Some(start) && template[..start] == route.text
            && IndexOf(template[start..], '}') == Some(1 + |route.name|)
            && |template| == end + 1 + |Template(route.rest)|
            && template[start + 1..end] == route.name && template[end + 1..] == Template(route.rest)
  {
    assert '{' !in route.text && '}' !in route.name;
    hide IndexOf, Separated;
    var template, start := Template(route), |route.text|;
    var tail := Template(route.rest);
    assert template == route.text + ['{'] + (route.name + "}" + tail);
    IndexAt(route.text, '{', route.name + "}" + tail);
    assert template[..start] == route.text;
    assert template[start..] == ("{" + route.name) + ['}'] + tail;
    IndexAt("{" + route.name, '}', tail);
  }

  /** One step of the match on a template that starts with a segment. */
  lemma {:induction false} MatchSegment(route: Route, path: string)
    requires route.Segment? && Separated(route)
    ensures var rest, tail := Drop(path, |route.text|), Template(route.rest);
            MatchHead(Template(route), path) ==
              if !(Take(path, |route.text|) <= route.text) then Unmatched(NoMatch)
              else if tail == "" then
                (match LastValue(rest)
                 case None => Unmatched(NoMatch)
                 case Some(value) => Bound(route.name, value, "", ""))
              else
                var value := ValueBefore(rest, tail[0]);
                Bound(route.name, value, tail, rest[|value|..])
  {
    TemplateParts(route);
    hide IndexOf, LastValue, ValueBefore, Take, Drop, Separated, Template;
    var template, end := Template(route), |route.text| + 1 + |route.name|;
    assert template[end + 1..] != "" ==> template[end + 1] == template[end + 1..][0];
  }

  lemma TemplateEmptyIff(route: Route)
    ensures Template(route) == "" <==> route == End("")
    ensures route.text != "" ==> Template(route) != "" && Template(route)[0] == route.text[0]
  {
  }

  lemma PathStart(route: Route, values: Params)
    requires Names(route) <= values.Keys && route.text != ""
    ensures Path(route, values) != "" && Path(route, values)[0] == route.text[0]
  {
  }

  lemma ValueFound(value: string, after: string, next: char)
    requires after != "" && after[0] == next
    ensures ValueBefore(value + after, next) == value <==> next !in value
    ensures |ValueBefore(value + after, next)| <= |value|
  {
    var s := value + after;
    assert s[|value|] == next;
    forall k | |value| < k <= |s| ensures next in s[..k] {
      assert s[..k][|value|] == next;
    }
    if next !in value {
      assert s == value + [next] + after[1..];
      IndexAt(value, next, after[1..]);
      assert s[..|value|] == value;
    } else {
      var i :| 0 <= i < |value| && value[i] == next;
      assert s[i] == next;
    }
  }

  /** A match never changes what it has found for other names. */
  lemma {:induction false} MatchKeeps(route: Route, path: string, found: Params, n: string)
    requires Separated(route) && n !in Names(route) && n in found
    requires MatchFrom(Template(route), path, found).Success?
    ensures n in MatchFrom(Template(route), path, found).value
    ensures MatchFrom(Template(route), path, found).value[n] == found[n]
    decreases route
  {
    match route
    case End(text) => NoBrace(text);
    case Segment(text, name, rest) =>
      MatchSegment(route, path);
      var head := MatchHead(Template(route), path);
      hide MatchHead, Drop, Take, ValueBefore, LastValue;
      if Template(rest) != "" {
        MatchKeeps(rest, head.path, found[name := head.value], n);
      } else {
        assert MatchHead("", "") == Finished by { EmptyTemplate(); }
      }
  }

  lemma EmptyTemplate()
    ensures MatchHead("", "") == Finished
  {
  }

  lemma NoBrace(text: string)
    requires '{' !in text
    ensures IndexOf(text, '{') == None
  {
  }

  lemma OfSegment(route: Route, values: Params, found: Params)
    requires route.Segment? && Names(route) <= values.Keys && route.name !in Names(route.rest)
    ensures found[route.name := values[route.name]] + Of(route.rest, values) == found + Of(route, values)
  {
  }

  lemma MatchLast(route: Route, value: string, found: Params)
    requires route.Segment? && route.rest == End("") && Separated(route)
    ensures MatchFrom(Template(route), route.text + value, found)
         == match LastValue(value)
            case None => Failure(NoMatch)
            case Some(last) => Success(found[route.name := last])
  {
    var path := route.text + value;
    assert Take(path, |route.text|) == route.text && Drop(path, |route.text|) == value;
    MatchSegment(route, path);
    EmptyTemplate();
    assert Template(route.rest) == "";
    hide MatchHead, Take, Drop, Template, LastValue;
    match LastValue(value)
    case None =>
    case Some(last) =>
      var bound := found[route.name := last];
      assert MatchFrom("", "", bound) == Success(bound);
  }

  lemma LastSegment(route: Route, values: Params, found: Params)
    requires route.Segment? && route.rest == End("") && Separated(route) && route.name in values && route.name !in found
    ensures MatchFrom(Template(route), Path(route, values), found) == Success(found + Of(route, values))
       <==> Clear(route, values)
  {
    var value := values[route.name];
    assert Path(route.rest, values) == "" && Path(route, values) == route.text + value;
    assert Clear(route, values) <==> !StartsWithSlash(value) && !EndsWithSlash(value);
    assert LastValue(value) == Some(value) <==> !StartsWithSlash(value) && !EndsWithSlash(value);
    MatchLast(route, value, found);
    hide StartsWithSlash, EndsWithSlash, LastValue, Clear;
    OfSegment(route, values, found);
    assert found[route.name := value] + Of(route.rest, values) == found[route.name := value];
    hide MatchFrom, Template, Path, Of, Separated, Names;
    if LastValue(value).Some? {
      BoundDiffers(found, route.name, LastValue(value).value, value);
    }
  }

  lemma BoundDiffers(found: Params, name: string, a: string, b: string)
    ensures found[name := a] == found[name := b] <==> a == b
  {
    assert found[name := a][name] == a && found[name := b][name] == b;
  }

  /** One segment followed by text: its value is found, or the match goes wrong for good. */
  lemma InnerSegment(route: Route, values: Params, found: Params)
    requires route.Segment? && route.rest.text != "" && Separated(route)
    requires Names(route) <= values.Keys && found.Keys !! Names(route)
    ensures var value := values[route.name];
            if route.rest.text[0] in value then
              MatchFrom(Template(route), Path(route, values), found) != Success(found + Of(route, values))
            else
              MatchFrom(Template(route), Path(route, values), found)
                == MatchFrom(Template(route.rest), Path(route.rest, values), found[route.name := value])
  {
    var path, value, after := Path(route, values), values[route.name], Path(route.rest, values);
    var next := route.rest.text[0];
    assert path == route.text + (value + after);
    assert Take(path, |route.text|) == route.text && Drop(path, |route.text|) == value + after;
    MatchSegment(route, path);
    TemplateEmptyIff(route.rest);
    PathStart(route.rest, values);
    ValueFound(value, after, next);
    hide MatchHead, ValueBefore, Take, Drop;
    var got := ValueBefore(value + after, next);
    var more, left := found[route.name := got], (value + after)[|got|..];
    assert MatchFrom(Template(route), path, found) == MatchFrom(Template(route.rest), left, more);
    hide MatchFrom;
    if next !in value {
      assert left == after;
    } else if MatchFrom(Template(route.rest), left, more).Success? {
      MatchKeeps(route.rest, left, more, route.name);
      assert (found + Of(route, values))[route.name] == value;
    }
  }

  /** Matching undoes printing exactly when the values are clear of their separators. */
  lemma {:induction false} MatchPathIff(route: Route, values: Params, found: Params)
    requires Separated(route) && Names(route) <= values.Keys && found.Keys !! Names(route)
    ensures MatchFrom(Template(route), Path(route, values), found) == Success(found + Of(route, values))
       <==> Clear(route, values)
    decreases route
  {
    match route
    case End(text) =>
      NoBrace(text);
      assert found + Of(route, values) == found;
    case Segment(text, name, rest) =>
      if rest.text == "" {
        LastSegment(route, values, found);
      } else {
        InnerSegment(route, values, found);
        hide MatchFrom;
        if rest.text[0] !in values[name] {
          var more := found[name := values[name]];
          MatchPathIff(rest, values, more);
          OfSegment(route, values, found);
        }
      }
  }

  /** For a whole route. */
  lemma ParamsOfPath(route: Route, values: Params)
    requires Separated(route) && values.Keys == Names(route)
    ensures GetParamsFromPath(Template(route), Path(route, values)) == Success(values) <==> Clear(route, values)
  {
    MatchPathIff(route, values, map[]);
    assert map[] + Of(route, values) == values;
  }

  /** A path that stops short of the text before the variable is matched too: with a
      single variable at the end, a path matches exactly when it is a prefix of the
      text, or goes on from it with anything but a slash; and the value is all that
      follows, but for one slash at its end. */
  lemma OneVariableIff(text: string, name: string, path: string)
    requires '{' !in text && '}' !in name
    ensures GetParamsFromPath(text + "{" + name + "}", path).Success?
       <==> path <= text || (text <= path && !StartsWithSlash(path[|text|..]))
    ensures GetParamsFromPath(text + "{" + name + "}", path).Success? ==>
              var rest := if path <= text then "" else path[|text|..];
              GetParamsFromPath(text + "{" + name + "}", path)
                == Success(map[name := if rest != "" && rest[|rest| - 1] == '/' then rest[..|rest| - 1] else rest])
  {
    var route := Segment(text, name, End(""));
    assert Template(route) == text + "{" + name + "}";
    MatchSegment(route, path);
    EmptyTemplate();
    hide MatchHead;
    if Take(path, |text|) <= text && LastValue(Drop(path, |text|)).Some? {
      var found: Params := map[name := LastValue(Drop(path, |text|)).value];
      assert map[][name := LastValue(Drop(path, |text|)).value] == found;
      assert MatchFrom("", "", found) == Success(found);
    }
  }

  /** A template without variables accepts its own text, with or without a slash at the end. */
  lemma LiteralIff(text: string, path: string)
    requires text != "" && '{' !in text
    ensures GetParamsFromPath(text, path) == Success(map[]) <==>
              || path == text
              || (path + "/" == text && !EndsWithSlash(path))
              || (text + "/" == path && !EndsWithSlash(text))
    ensures GetParamsFromPath(text, path) in {Success(map[]), Failure(NoMatch)}
  {
    NoBrace(text);
    assert path + "/" == text ==> EndsWithSlash(text);
    assert text + "/" == path ==> EndsWithSlash(path);
    assert text + "/" == path + "/" ==> text == path by {
      assert (text + "/")[..|text + "/"| - 1] == text && (path + "/")[..|path + "/"| - 1] == path;
    }
  }

  /** An open brace that is not closed is an error once the path gets there. */
  lemma UnclosedBrace(before: string, after: string, path: string)
    requires '{' !in before && '}' !in after && before <= path
    ensures GetParamsFromPath(before + "{" + after, path) == Failure(NoClosingBrace)
  {
    var template := before + "{" + after;
    IndexAt(before, '{', after);
    assert template[..|before|] == before && template[|before|..] == "{" + after;
    assert '}' !in "{" + after;
    hide IndexOf;
  }

  /** A path that ends before the text between two variables leaves the second one empty. */
  lemma ShortOfSecond(text: string, first: string, between: string, second: string, value: string)
    requires '{' !in text && '{' !in between && '}' !in first && '}' !in second && first != second
    requires between != "" && between[0] !in value
    ensures GetParamsFromPath(text + "{" + first + "}" + (between + "{" + second + "}"), text + value)
         == Success(map[first := value, second := ""])
  {
    var rest := Segment(between, second, End(""));
    var route, path := Segment(text, first, rest), text + value;
    assert Template(rest) == between + "{" + second + "}";
    assert Template(route) == text + "{" + first + "}" + Template(rest);
    assert Take(path, |text|) == text && Drop(path, |text|) == value;
    assert Separated(End("")) && Separated(rest) && Names(rest) == {second} && Separated(route);
    MatchSegment(route, path);
    MatchSegment(rest, "");
    EmptyTemplate();
    assert Template(rest)[0] == between[0] && ValueBefore(value, between[0]) == value && value[|value|..] == "";
    assert Template(rest.rest) == "" && LastValue("") == Some("") && Take("", |between|) == "" == Drop("", |between|);
    hide MatchHead, Take, Drop, ValueBefore, LastValue, Template;
    var one: Params := map[first := value];
    assert map[][first := value] == one && one[second := ""] == map[first := value, second := ""];
    assert MatchFrom("", "", one[second := ""]) == Success(one[second := ""]);
    assert MatchFrom(Template(rest), "", one) == MatchFrom("", "", one[second := ""]);
  }
}
