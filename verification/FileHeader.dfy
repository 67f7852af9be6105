/** The comment lines the program writes at the top of the points file
    (Config.cpp), in UTF-8 bytes: they really are a `Header`. */
module FileHeader {
  import opened Text
  import opened PointsCsv

  // The lines are cut between words and lists: the verifier reads a literal character
  // by character and gives up on a long one.
  const HEADER_1 := "# nome;ip;port;slave_id;" + "registrador;endereco;" + "tipo_dado;dnp3_indice"
  const REGISTER_NAMES := "# registrador: " + "coil_status,input_status," + "holding,input_register"
  const TYPE_NAMES := " | tipo_dado: " + "bool,int16,uint16," + "int32,uint32,float32"
  const HEADER_2 := REGISTER_NAMES + TYPE_NAMES
  const SUGGESTION := "# O DNP3 \U{C3}\U{A9} sugerido" + " automaticamente."
  const ONLY_FIELD := " O \U{C3}\U{BA}nico campo DNP3" + " edit\U{C3}\U{A1}vel \U{C3}\U{A9} o \U{C3}\U{AD}ndice."
  const HEADER_3 := SUGGESTION + ONLY_FIELD

  const HEADER_TEXT := Line(HEADER_1) + Line(HEADER_2) + Line(HEADER_3)

  predicate IsComment(line: string) {
    line != "" && line[0] == '#' && '\n' !in line
  }

  lemma CommentLoadsNothing(line: string)
    requires IsComment(line)
    ensures Load(Line(line)) == []
  {
    hide ParseFields;
    LoadLine(line);
  }

  lemma Header1IsComment()
    ensures IsComment(HEADER_1)
  {
  }

  lemma SecondLinePieces()
    ensures IsComment(REGISTER_NAMES) && '\n' !in TYPE_NAMES
  {
  }

  lemma Header2IsComment()
    ensures IsComment(HEADER_2)
  {
    hide REGISTER_NAMES, TYPE_NAMES;
    SecondLinePieces();
  }

  lemma ThirdLinePieces()
    ensures IsComment(SUGGESTION) && '\n' !in ONLY_FIELD
  {
  }

  lemma Header3IsComment()
    ensures IsComment(HEADER_3)
  {
    hide SUGGESTION, ONLY_FIELD;
    ThirdLinePieces();
  }

  lemma HeaderLoadsNothing()
    ensures Terminated(HEADER_TEXT, '\n') && Load(HEADER_TEXT) == []
  {
    Header1IsComment();
    Header2IsComment();
    Header3IsComment();
    hide HEADER_1, HEADER_2, HEADER_3, Load;
    CommentLoadsNothing(HEADER_1);
    CommentLoadsNothing(HEADER_2);
    CommentLoadsNothing(HEADER_3);
    LoadAppend(Line(HEADER_1), Line(HEADER_2));
    LoadAppend(Line(HEADER_1) + Line(HEADER_2), Line(HEADER_3));
  }

  const HEADER: Header := (HeaderLoadsNothing(); HEADER_TEXT)
}
