/**
 The recursive-descent parser of src/compiler/parser.c, which moves one cursor over the token list. Every routine
 returns, and leaves in front of the cursor, what the function of the same name in `Grammar` says.
 */
module Parser {
  import opened Options
  import opened Sequences
  import opened Tokenizer
  import G = Grammar

  // What is collected so far, in front of what a routine finds in the rest.
  ghost predicate Continues<T>(all: G.Parsed<seq<T>>, found: seq<T>, more: G.Parsed<seq<T>>) {
    all == G.Parsed(if more.value.None? then None else Some(found + more.value.value), more.rest)
  }

  lemma ContinuesStart<T>(all: G.Parsed<seq<T>>)
    ensures Continues(all, [], all)
  {
    if all.value.Some? {
      assert [] + all.value.value == all.value.value;
    }
  }

  // One more element, and whether a comma follows it.
  lemma ContinuesStep<T>(all: G.Parsed<seq<T>>, found: seq<T>, x: T, here: G.Parsed<seq<T>>,
                         more: G.Parsed<seq<T>>, after: seq<Token>, comma: bool)
    requires Continues(all, found, here)
    requires here == if comma
                     then G.Parsed(if more.value.None? then None else Some([x] + more.value.value), more.rest)
                     else G.Parsed(Some([x]), after)
    ensures comma ==> Continues(all, found + [x], more)
    ensures !comma ==> all == G.Parsed(Some(found + [x]), after)
  {
    if comma && more.value.Some? {
      ConcatAssociates(found, [x], more.value.value);
    }
  }

  lemma ContinuesNone<T>(all: G.Parsed<seq<T>>, found: seq<T>, here: G.Parsed<seq<T>>)
    requires Continues(all, found, here) && here.value.None?
    ensures all == here
  {
  }

  class Parser {
    const tokens: seq<Token>
    var pos: nat

    constructor (tokens: seq<Token>)
      ensures Valid() && Rest() == tokens
    {
      this.tokens := tokens;
      pos := 0;
    }

    ghost predicate Valid()
      reads this
    {
      pos <= |tokens|
    }

    ghost function Rest(): seq<Token>
      requires Valid()
      reads this
    {
      tokens[pos..]
    }

    method Peek() returns (token: Option<Token>)
      requires Valid()
      ensures token == if Rest() == [] then None else Some(Rest()[0])
    {
      token := if pos < |tokens| then Some(tokens[pos]) else None;
    }

    method Advance() returns (token: Option<Token>)
      requires Valid()
      modifies `pos
      ensures Valid()
      ensures old(Rest()) == [] ==> token.None? && pos == old(pos)
      ensures old(Rest()) != [] ==> token == Some(old(Rest())[0]) && Rest() == old(Rest())[1..]
    {
      if pos < |tokens| {
        token := Some(tokens[pos]);
        pos := pos + 1;
      } else {
        token := None;
      }
    }

    method Match(kind: TokenType) returns (found: bool)
      requires Valid()
      modifies `pos
      ensures Valid() && found == G.At(old(Rest()), kind)
      ensures found ==> Rest() == old(Rest())[1..] && pos == old(pos) + 1
      ensures !found ==> pos == old(pos)
    {
      var token := Peek();
      found := token.Some? && token.value.kind == kind;
      if found {
        pos := pos + 1;
      }
    }

    method Expect(kind: TokenType) returns (token: Option<Token>)
      requires Valid()
      modifies `pos
      ensures Valid() && G.Parsed(token, Rest()) == G.Expect(old(Rest()), kind)
      ensures token.Some? ==> pos == old(pos) + 1
    {
      var next := Advance();
      token := if next.Some? && next.value.kind == kind then next else None;
    }

    // The loop over column names, which SELECT and INSERT have in common.
    method ParseNames() returns (found: Option<seq<string>>)
      requires Valid()
      modifies `pos
      ensures Valid() && G.Parsed(found, Rest()) == G.ParseNames(old(Rest()))
    {
      hide G.Expect, G.At, Continues;
      ghost var all := G.ParseNames(Rest());
      var list, comma := [], true;
      ContinuesStart(all);
      while comma
        invariant Valid()
        invariant comma ==> Continues(all, list, G.ParseNames(Rest()))
        invariant !comma ==> all == G.Parsed(Some(list), Rest())
        decreases |tokens| - pos
      {
        ghost var here := G.ParseNames(Rest());
        var next := Expect(Identifier);
        if next.None? {
          ContinuesNone(all, list, here);
          return None;
        }
        ghost var after := Rest();
        comma := Match(Comma);
        ContinuesStep(all, list, next.value.lexeme, here, G.ParseNames(Rest()), after, comma);
        list := list + [next.value.lexeme];
      }
      found := Some(list);
    }

    method ParseValue() returns (value: Option<G.Value>)
      requires Valid()
      modifies `pos
      ensures Valid() && G.Parsed(value, Rest()) == G.ParseValue(old(Rest()))
      ensures value.Some? ==> pos > old(pos)
    {
      var token := Advance();
      if token.None? {
        value := None;
      } else if token.value.kind == VarcharLiteral {
        value := Some(G.Text(G.Unquote(token.value.lexeme)));
      } else if token.value.kind == IntLiteral {
        value := Some(G.Integer(G.Atoi(token.value.lexeme)));
      } else {
        value := None;
      }
    }

    // The loop over the values of an INSERT.
    method ParseValues() returns (found: Option<seq<G.Value>>)
      requires Valid()
      modifies `pos
      ensures Valid() && G.Parsed(found, Rest()) == G.ParseValues(old(Rest()))
    {
      hide G.ParseValue, G.At, Continues;
      ghost var all := G.ParseValues(Rest());
      var list, comma := [], true;
      ContinuesStart(all);
      while comma
        invariant Valid()
        invariant comma ==> Continues(all, list, G.ParseValues(Rest()))
        invariant !comma ==> all == G.Parsed(Some(list), Rest())
        decreases |tokens| - pos
      {
        ghost var here := G.ParseValues(Rest());
        var next := ParseValue();
        if next.None? {
          ContinuesNone(all, list, here);
          return None;
        }
        ghost var after := Rest();
        comma := Match(Comma);
        ContinuesStep(all, list, next.value, here, G.ParseValues(Rest()), after, comma);
        list := list + [next.value];
      }
      found := Some(list);
    }

    method ParseLength() returns (length: Option<int>)
      requires Valid()
      modifies `pos
      ensures Valid() && G.Parsed(length, Rest()) == G.ParseLength(old(Rest()))
      ensures pos >= old(pos)
    {
      hide G.Expect, G.At, G.Atoi;
      var open := Match(OpenParen);
      if !open {
        return Some(G.DEFAULT_VARCHAR_LENGTH);
      }
      var digits := Expect(IntLiteral);
      if digits.None? {
        return None;
      }
      var close := Expect(CloseParen);
      if close.None? {
        return None;
      }
      length := Some(G.Atoi(digits.value.lexeme));
    }

    method ParseDef() returns (def: Option<G.ColumnDef>)
      requires Valid()
      modifies `pos
      ensures Valid() && G.Parsed(def, Rest()) == G.ParseDef(old(Rest()))
      ensures def.Some? ==> pos > old(pos)
    {
      hide G.Expect, G.ParseLength;
      var name := Expect(Identifier);
      if name.None? {
        return None;
      }
      var columnType := Peek();
      if columnType.None? {
        return None;
      }
      if columnType.value.kind == TypeInt {
        var _ := Advance();
        def := Some(G.ColumnDef(name.value.lexeme, G.IntColumn, -1));
      } else if columnType.value.kind == TypeVarchar {
        var _ := Advance();
        var length := ParseLength();
        def := if length.None? then None else Some(G.ColumnDef(name.value.lexeme, G.VarcharColumn, length.value));
      } else {
        def := None;
      }
    }

    // The loop over the columns of a CREATE TABLE.
    method ParseDefs() returns (found: Option<seq<G.ColumnDef>>)
      requires Valid()
      modifies `pos
      ensures Valid() && G.Parsed(found, Rest()) == G.ParseDefs(old(Rest()))
    {
      hide G.ParseDef, G.At, Continues;
      ghost var all := G.ParseDefs(Rest());
      var list, comma := [], true;
      ContinuesStart(all);
      while comma
        invariant Valid()
        invariant comma ==> Continues(all, list, G.ParseDefs(Rest()))
        invariant !comma ==> all == G.Parsed(Some(list), Rest())
        decreases |tokens| - pos
      {
        ghost var here := G.ParseDefs(Rest());
        var next := ParseDef();
        if next.None? {
          ContinuesNone(all, list, here);
          return None;
        }
        ghost var after := Rest();
        comma := Match(Comma);
        ContinuesStep(all, list, next.value, here, G.ParseDefs(Rest()), after, comma);
        list := list + [next.value];
      }
      found := Some(list);
    }

    method ParseSelect() returns (stmt: Option<G.Statement>)
      requires Valid()
      modifies `pos
      ensures Valid() && G.Parsed(stmt, Rest()) == G.ParseSelect(old(Rest()))
    {
      hide G.Expect, G.At, G.ParseNames;
      var keyword := Expect(Select);
      if keyword.None? {
        return None;
      }
      var columns: Option<seq<string>>;
      var star := Match(Star);
      if star {
        columns := Some(["*"]);
      } else {
        columns := ParseNames();
        if columns.None? {
          return None;
        }
      }
      var from := Expect(From);
      if from.None? {
        return None;
      }
      var table := Expect(Identifier);
      if table.None? {
        return None;
      }
      var _ := Expect(EndOfLine);
      stmt := Some(G.SelectStmt(columns.value, table.value.lexeme));
    }

    method ParseColumnList() returns (columns: Option<seq<string>>)
      requires Valid()
      modifies `pos
      ensures Valid() && G.Parsed(columns, Rest()) == G.ParseColumnList(old(Rest()))
    {
      hide G.Expect, G.At, G.ParseNames;
      var open := Match(OpenParen);
      if !open {
        return Some([]);
      }
      columns := ParseNames();
      if columns.Some? {
        var close := Expect(CloseParen);
        if close.None? {
          columns := None;
        }
      }
    }

    method ParseInsert() returns (stmt: Option<G.Statement>)
      requires Valid()
      modifies `pos
      ensures Valid() && G.Parsed(stmt, Rest()) == G.ParseInsert(old(Rest()))
    {
      hide G.Expect, G.ParseColumnList, G.ParseValues;
      var insert := Expect(Insert);
      if insert.None? {
        return None;
      }
      var into := Expect(Into);
      if into.None? {
        return None;
      }
      var table := Expect(Identifier);
      if table.None? {
        return None;
      }
      var columns := ParseColumnList();
      if columns.None? {
        return None;
      }
      var keyword := Expect(TokenType.Values);
      if keyword.None? {
        return None;
      }
      var open := Expect(OpenParen);
      if open.None? {
        return None;
      }
      var values := ParseValues();
      if values.None? {
        return None;
      }
      var close := Expect(CloseParen);
      if close.None? {
        return None;
      }
      var end := Expect(EndOfLine);
      if end.None? {
        return None;
      }
      stmt := Some(G.InsertStmt(table.value.lexeme, columns.value, values.value));
    }

    method ParseCreate() returns (stmt: Option<G.Statement>)
      requires Valid()
      modifies `pos
      ensures Valid() && G.Parsed(stmt, Rest()) == G.ParseCreate(old(Rest()))
    {
      hide G.Expect, G.ParseDefs;
      var create := Expect(Create);
      if create.None? {
        return None;
      }
      var keyword := Expect(Table);
      if keyword.None? {
        return None;
      }
      var table := Expect(Identifier);
      if table.None? {
        return None;
      }
      var open := Expect(OpenParen);
      if open.None? {
        return None;
      }
      var defs := ParseDefs();
      if defs.None? {
        return None;
      }
      var close := Expect(CloseParen);
      if close.None? {
        return None;
      }
      var end := Expect(EndOfLine);
      if end.None? {
        return None;
      }
      stmt := Some(G.CreateStmt(table.value.lexeme, defs.value));
    }

    method ParseBegin() returns (stmt: Option<G.Statement>)
      requires Valid()
      modifies `pos
      ensures Valid() && G.Parsed(stmt, Rest()) == G.ParseBegin(old(Rest()))
    {
      hide G.Expect;
      var begin := Expect(Begin);
      if begin.None? {
        return None;
      }
      var transaction := Expect(Transaction);
      if transaction.None? {
        return None;
      }
      var end := Expect(EndOfLine);
      if end.None? {
        return None;
      }
      stmt := Some(G.BeginStmt);
    }

    method ParseCommit() returns (stmt: Option<G.Statement>)
      requires Valid()
      modifies `pos
      ensures Valid() && G.Parsed(stmt, Rest()) == G.ParseCommit(old(Rest()))
    {
      hide G.Expect;
      var commit := Expect(Commit);
      if commit.None? {
        return None;
      }
      var end := Expect(EndOfLine);
      if end.None? {
        return None;
      }
      stmt := Some(G.CommitStmt);
    }
  }

  // parse_tokens_with_type
  method ParseTokens(tokens: seq<Token>) returns (stmt: Option<G.Statement>)
    ensures stmt == G.ParseTokens(tokens)
  {
    hide G.ParseSelect, G.ParseInsert, G.ParseCreate, G.ParseBegin, G.ParseCommit;
    var parser := new Parser(tokens);
    var token := parser.Peek();
    if token.None? {
      stmt := None;
    } else if token.value.kind == Select {
      stmt := parser.ParseSelect();
    } else if token.value.kind == Insert {
      stmt := parser.ParseInsert();
    } else if token.value.kind == Create {
      stmt := parser.ParseCreate();
    } else if token.value.kind == Begin {
      stmt := parser.ParseBegin();
    } else if token.value.kind == Commit {
      stmt := parser.ParseCommit();
    } else {
      stmt := None;
    }
  }

  // Lexer and parser one after the other.
  method ParseText(text: string) returns (stmt: Option<G.Statement>)
    ensures stmt == G.ParseText(text)
  {
    var ok, tokens := Tokenize(text);
    if ok {
      stmt := ParseTokens(tokens);
    } else {
      stmt := None;
    }
  }
}
