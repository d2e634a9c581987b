// The operators of the language as they are written in a source line: what they mean and how tightly they
// bind, and the letters that the compiler uses for them.
module Language {
  import opened Infix
  import opened Int64
  import opened Shunt

  // The value of `x op y`.  None where the virtual machine stops, and where C leaves it open.
  function Meaning(op: string, x: int, y: int): Option<int> {
    if op == "+" then Some(Wrap(x + y))
    else if op == "-" then Some(Wrap(x - y))
    else if op == "*" then Some(Wrap(x * y))
    else if op == "/" then (if y == 0 || (x == MIN && y == -1) then None else Some(TDiv(x, y)))
    else if op == "%" then (if y == 0 || (x == MIN && y == -1) then None else Some(TMod(x, y)))
    else if op == "<|" then (if 0 <= y < 64 then Some(Wrap(x * Power(y))) else None)
    else if op == ">|" then (if 0 <= y < 64 then Some(x / Power(y)) else None)
    else if op == "==" then Some(Bool(x == y))
    else if op == "!=" then Some(Bool(x != y))
    else if op == "<" then Some(Bool(x < y))
    else if op == "<=" then Some(Bool(x <= y))
    else if op == ">" then Some(Bool(x > y))
    else if op == ">=" then Some(Bool(x >= y))
    else if op == "&&" then Some(Bool(x != 0 && y != 0))
    else if op == "||" then Some(Bool(x != 0 || y != 0))
    else if op == "&" then Some(BitAnd(x, y))
    else if op == "|" then Some(BitOr(x, y))
    else if op == "^" then Some(BitXor(x, y))
    else None
  }

  // The compiler's order of binding, loosest first.
  function Level(op: string): int {
    if op in {"+", "-"} then 2
    else if op in {"*", "/", "%"} then 3
    else if op in {"<|", ">|"} then 4
    else if op in {"<", "<=", ">", ">="} then 5
    else if op in {"==", "!="} then 6
    else if op == "&" then 7
    else if op == "^" then 8
    else if op == "|" then 9
    else if op == "&&" then 10
    else if op == "||" then 11
    else 0
  }

  // How the operator with this letter is written.
  function Spelled(c: char): string {
    match c
    case 'E' => "==" case 'N' => "!="
    case 'L' => "<=" case 'G' => ">="
    case 'A' => "&&" case 'O' => "||"
    case '$' => "<|" case '@' => ">|"
    case _ => [c]
  }

  // The meaning of an operator by its letter.
  function Meant(c: char, x: int, y: int): Option<int> {
    if IsBinary(c) then Meaning(Spelled(c), x, y) else None
  }
}
